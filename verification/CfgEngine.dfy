/** The builder itself: a graph object that is filled and pruned in place, and
    the engine that fills it. */
module CfgEngine {
  import opened Collections
  import opened Ast
  import opened Runs
  import opened Paths
  import opened CfgSpec
  import opened SwitchGroups
  import opened CfgWellFormed
  import opened CfgNodes
  import opened CfgTheorem
  import opened CfgPrune
  import opened CfgEdges
  import opened CfgGotos
  import opened CfgLabels
  import opened CfgForks

  class ControlFlowGraph {
    var order: seq<int>
    var blocks: map<int, seq<NodeId>>
    var edges: seq<Edge>

    constructor ()
      ensures Value() == Cfg([ENTRY, EXIT], map[ENTRY := [], EXIT := []], [])
    {
      order := [ENTRY, EXIT];
      blocks := map[ENTRY := [], EXIT := []];
      edges := [];
    }

    function Value(): Cfg
      reads this
    {
      Cfg(order, blocks, edges)
    }

    /** Depth-first search from the entry. The stack may hold a block several
        times; only blocks seen for the first time are expanded. */
    method ReachableBlocks() returns (visited: set<int>)
      ensures forall b :: b in visited <==> Reaches(Value().Arcs(), ENTRY, b)
    {
      hide Reaches, ArcsOf;
      var stack := [ENTRY];
      visited := {};
      ghost var arcs := Value().Arcs();
      ghost var universe := {ENTRY} + set e | e in edges :: e.target;
      ReachesSelf(arcs, ENTRY);
      while stack != []
        invariant forall b :: b in visited || b in stack ==> Reaches(arcs, ENTRY, b)
        invariant visited <= universe && forall b :: b in stack ==> b in universe
        invariant ENTRY in visited || ENTRY in stack
        invariant forall e :: e in edges && e.source in visited ==> e.target in visited || e.target in stack
        decreases universe - visited, |stack|
      {
        var current := Last(stack);
        ghost var before := stack;
        stack := stack[..|stack| - 1];
        assert before == stack + [current];
        assert forall b :: b in before ==> b == current || b in stack;
        if current !in visited {
          visited := visited + {current};
          stack := PushTargets(stack, Successors(edges, current));
          TargetsReached(edges, arcs, current);
        }
      }
      VisitedIsReachable(edges, arcs, visited);
    }

    /** Blocks that hold code but cannot be reached from the entry. */
    method UnreachableBlocks() returns (found: seq<int>)
      requires forall b :: b in order <==> b in blocks
      ensures forall b :: b in found <==>
                b in blocks && b != ENTRY && b != EXIT && blocks[b] != [] && !Reaches(Value().Arcs(), ENTRY, b)
    {
      var reachable := ReachableBlocks();
      found := [];
      var i := 0;
      while i < |order|
        invariant i <= |order|
        invariant forall b :: b in found <==>
                    b in order[..i] && b !in reachable && b != ENTRY && b != EXIT && blocks[b] != []
      {
        var b := order[i];
        if b !in reachable && b != ENTRY && b != EXIT && blocks[b] != [] {
          found := found + [b];
        }
        assert order[..i + 1] == order[..i] + [b];
        i := i + 1;
      }
      assert order[..i] == order;
    }

    /** Collapse empty blocks that only fall through, until none is left. */
    method Prune()
      requires WellFormed(Value())
      modifies this
      ensures PrunedTo(old(Value()), Value()) && WellFormed(Value())
      ensures FullyPruned(Value())
    {
      PrunedSelf(Value());
      var changed := true;
      while changed
        invariant PrunedTo(old(Value()), Value()) && WellFormed(Value())
        invariant !changed ==> forall b :: b in blocks ==> !Collapsible(Value(), b)
        decreases |order|, changed
      {
        changed := false;
        var snapshot := order;
        ghost var start := |order|;
        var i := 0;
        while i < |snapshot|
          invariant i <= |snapshot|
          invariant PrunedTo(old(Value()), Value()) && WellFormed(Value())
          invariant |order| <= start && (changed ==> |order| < start)
          invariant !changed ==> order == snapshot
          invariant !changed ==> forall j :: 0 <= j < i ==> !Collapsible(Value(), snapshot[j])
        {
          var b := snapshot[i];
          if Collapsible(Value(), b) {
            CollapseOne(b);
            changed := true;
          }
          i := i + 1;
        }
        if !changed {
          forall b | b in blocks
            ensures !Collapsible(Value(), b)
          {
            assert b in order;
            var j :| 0 <= j < |snapshot| && snapshot[j] == b;
          }
        }
      }
      NoneCollapsible(Value());
    }

    /** Send the edges into the block on to where it leads, drop its edge and
        delete it. */
    method CollapseOne(b: int)
      requires Collapsible(Value(), b) && WellFormed(Value())
      modifies this
      ensures Value() == Collapse(old(Value()), b) && WellFormed(Value())
      ensures |order| < |old(order)|
      ensures forall g :: PrunedTo(g, old(Value())) ==> PrunedTo(g, Value())
    {
      CollapseWellFormed(Value(), b);
      forall g | PrunedTo(g, Value())
        ensures PrunedTo(g, Collapse(Value(), b))
      {
        PrunedOnce(g, Value(), b);
      }
      WithoutBlockShorter(order, b);
      var target := Successors(edges, b)[0].target;
      edges := Retarget(edges, b, target);
      edges := WithoutSource(edges, b);
      blocks := blocks - {b};
      order := WithoutBlock(order, b);
    }
  }

  method PushTargets(stack: seq<int>, out: seq<Edge>) returns (r: seq<int>)
    ensures forall b :: b in r <==> b in stack || exists e :: e in out && e.target == b
  {
    r := stack;
    var i := 0;
    while i < |out|
      invariant i <= |out|
      invariant forall b :: b in r <==> b in stack || exists j :: 0 <= j < i && out[j].target == b
    {
      r := r + [out[i].target];
      i := i + 1;
    }
  }

  lemma TargetsReached(edges: seq<Edge>, arcs: set<(int, int)>, current: int)
    requires arcs == ArcsOf(edges) && Reaches(arcs, ENTRY, current)
    ensures forall e :: e in edges && e.source == current ==> Reaches(arcs, ENTRY, e.target)
  {
    hide Reaches;
    forall e | e in edges && e.source == current
      ensures Reaches(arcs, ENTRY, e.target)
    {
      ReachesArc(arcs, current, e.target);
      ReachesTransitive(arcs, ENTRY, current, e.target);
    }
  }

  /** A set that holds the entry and follows every edge holds all it reaches. */
  lemma VisitedIsReachable(edges: seq<Edge>, arcs: set<(int, int)>, visited: set<int>)
    requires arcs == ArcsOf(edges) && ENTRY in visited
    requires forall e :: e in edges && e.source in visited ==> e.target in visited
    ensures forall b :: Reaches(arcs, ENTRY, b) ==> b in visited
  {
    hide Reaches;
    assert Closed(arcs, visited);
    forall b | Reaches(arcs, ENTRY, b)
      ensures b in visited
    {
      ClosedContainsReachable(arcs, visited, ENTRY, b);
    }
  }

  lemma {:induction false} WithoutBlockShorter(order: seq<int>, b: int)
    ensures |WithoutBlock(order, b)| <= |order|
    ensures b in order ==> |WithoutBlock(order, b)| < |order|
  {
    if order != [] {
      WithoutBlockShorter(order[1..], b);
    }
  }

  /** What has been built so far, as a value. */
  datatype Snapshot = Snapshot(
    counter: nat,
    edges: seq<Edge>,
    places: seq<Place>,
    labels: seq<LabelDef>,
    gotos: seq<PendingGoto>)
  {
    function Plus(f: Frag): Snapshot
    {
      Snapshot(f.next.counter, edges + f.edges, places + f.places, labels + f.labels, gotos + f.gotos)
    }

    /** Every block mentioned has been created. */
    ghost predicate Sound()
    {
      && (forall a :: a in places ==> 0 < a.block <= counter)
      && (forall e :: e in edges ==> e.source <= counter)
      && (forall l :: l in labels ==> l.block <= counter)
    }

    /** The builder standing in block `b`. */
    function At(b: int): Pos
    {
      Pos(b, |PlacedAt(places, b)|, counter)
    }
  }

  lemma PlusThen(s: Snapshot, f: Frag, g: Frag)
    ensures s.Plus(f).Plus(g) == s.Plus(f.Then(g))
  {
    assert (s.edges + f.edges) + g.edges == s.edges + (f.edges + g.edges);
    assert (s.places + f.places) + g.places == s.places + (f.places + g.places);
    assert (s.labels + f.labels) + g.labels == s.labels + (f.labels + g.labels);
    assert (s.gotos + f.gotos) + g.gotos == s.gotos + (f.gotos + g.gotos);
  }

  lemma PlusNothing(s: Snapshot, f: Frag)
    requires f.edges == [] && f.places == [] && f.labels == [] && f.gotos == [] && f.next.counter == s.counter
    ensures s.Plus(f) == s
  {
  }

  /** After a confined fragment the builder stands where the fragment says. */
  lemma StandsAtNext(s: Snapshot, b: int, f: Frag, loops: seq<LoopFrame>)
    requires s.Sound() && 0 < b <= s.counter && Confined(f, s.At(b), loops)
    ensures s.Plus(f).Sound() && s.Plus(f).At(f.next.block) == f.next
    ensures s.counter <= s.Plus(f).counter
    ensures Placed(f.next)
  {
    PlacedAtAppend(s.places, f.places, f.next.block);
    if f.next.block != b {
      PlacedAtNowhere(s.places, f.next.block);
    }
  }

  /** The same for a sequence built in blocks of its own; nothing leaves its end. */
  lemma StandsAfterSequence(s: Snapshot, f: Frag, loops: seq<LoopFrame>)
    requires s.Sound() && Confined(f, Fresh(s.counter), loops)
    ensures s.Plus(f).Sound() && s.counter < f.next.block <= s.Plus(f).counter
    ensures forall e :: e in s.Plus(f).edges ==> e.source != f.next.block
    ensures forall b :: b <= s.counter ==> PlacedAt(s.Plus(f).places, b) == PlacedAt(s.places, b)
  {
    forall b | b <= s.counter
      ensures PlacedAt(s.Plus(f).places, b) == PlacedAt(s.places, b)
    {
      PlacedAtAppend(s.places, f.places, b);
      PlacedAtNowhere(f.places, b);
    }
  }

  lemma NewBlockIsEmpty(s: Snapshot)
    requires s.Sound()
    ensures BlocksOf(s.counter + 1, s.places) == BlocksOf(s.counter, s.places)[s.counter + 1 := []]
  {
    PlacedAtNowhere(s.places, s.counter + 1);
    var a, b := BlocksOf(s.counter + 1, s.places), BlocksOf(s.counter, s.places)[s.counter + 1 := []];
    assert forall x :: x in a <==> x in b;
    assert forall x :: x in a ==> a[x] == b[x];
  }

  lemma AppendedPlace(places: seq<Place>, b: int, id: NodeId, x: int)
    ensures PlacedAt(places + [Place(b, id)], x) == if x == b then PlacedAt(places, b) + [id] else PlacedAt(places, x)
  {
    PlacedAtAppend(places, [Place(b, id)], x);
    assert [Place(b, id)][1..] == [];
    assert PlacedAt(places, x) + [] == PlacedAt(places, x);
  }

  lemma AppendedBlock(s: Snapshot, b: int, id: NodeId)
    requires 0 < b <= s.counter
    ensures BlocksOf(s.counter, s.places + [Place(b, id)])
            == BlocksOf(s.counter, s.places)[b := PlacedAt(s.places, b) + [id]]
  {
    hide PlacedAt, BlockIds;
    var now := BlocksOf(s.counter, s.places + [Place(b, id)]);
    var changed := BlocksOf(s.counter, s.places)[b := PlacedAt(s.places, b) + [id]];
    forall x | x in now
      ensures x in changed && now[x] == changed[x]
    {
      AppendedPlace(s.places, b, id, x);
    }
    assert forall x :: x in now <==> x in changed;
  }

  /** How the pieces of each construct add up to its fragment. */
  lemma IfAdds(s: Snapshot, id: NodeId, p: Pos, t: Frag, e: Frag)
    requires p.counter == s.counter
    ensures s.(places := s.places + [Place(p.block, id)], counter := s.counter + 1).Plus(t).Plus(e)
            == s.Plus(IfShape(id, p, t, e))
  {
    var x := s.(places := s.places + [Place(p.block, id)], counter := s.counter + 1).Plus(t).Plus(e);
    var y := s.Plus(IfShape(id, p, t, e));
    assert x.edges == y.edges;
    assert x.places == y.places;
    assert x.labels == y.labels;
    assert x.gotos == y.gotos;
  }

  lemma LoopAdds(s: Snapshot, id: NodeId, p: Pos, f: Frag)
    requires p.counter == s.counter
    ensures var header, after := s.counter + 1, s.counter + 2;
            var before := s.(counter := after, edges := s.edges + [Edge(p.block, header, Fallthrough)],
                             places := s.places + [Place(header, id)]);
            before.Plus(f).(edges := before.edges + f.edges + [Edge(header, after, FalseBranch)])
            == s.Plus(LoopShape(id, p, f))
  {
    var header, after := s.counter + 1, s.counter + 2;
    var a, c := [Edge(p.block, header, Fallthrough)], [Edge(header, after, FalseBranch)];
    assert (s.edges + a) + f.edges + c == s.edges + (a + f.edges + c);
    assert (s.places + [Place(header, id)]) + f.places == s.places + ([Place(header, id)] + f.places);
    assert s.labels + f.labels == s.labels + ([] + f.labels);
    assert s.gotos + f.gotos == s.gotos + ([] + f.gotos);
  }

  lemma SwitchAdds(s: Snapshot, id: NodeId, p: Pos, f: Frag, exits: seq<Edge>)
    requires p.counter == s.counter
    ensures s.(places := s.places + [Place(p.block, id)], counter := s.counter + 1).Plus(f.Wire(exits))
            == s.Plus(SwitchShape(id, p, f, exits))
  {
    assert s.edges + (f.edges + exits) == s.edges + (([] + f.edges) + exits);
    assert (s.places + [Place(p.block, id)]) + f.places == s.places + ([Place(p.block, id)] + f.places);
    assert s.labels + f.labels == s.labels + ([] + f.labels);
    assert s.gotos + f.gotos == s.gotos + ([] + f.gotos);
  }

  lemma PlusWire(s: Snapshot, f: Frag, more: seq<Edge>)
    ensures s.Plus(f).(edges := s.edges + f.edges + more) == s.Plus(f.Wire(more))
  {
    assert s.edges + f.edges + more == s.edges + (f.edges + more);
  }

  lemma {:induction false} SizeOfMember(ss: seq<Stmt>, i: nat)
    requires i < |ss|
    ensures Size(ss[i]) <= SizeAll(ss)
  {
    if i > 0 {
      SizeOfMember(ss[1..], i - 1);
    }
  }

  lemma {:induction false} SizeOfGroup(groups: seq<seq<Stmt>>, i: nat)
    requires i < |groups|
    ensures SizeAll(groups[i]) <= SizeGroups(groups)
  {
    if i > 0 {
      SizeOfGroup(groups[1..], i - 1);
    }
  }

  class CfgBuilder {
    const cfg: ControlFlowGraph
    var counter: nat
    var sequenceTails: map<int, int>
    var labelTargets: map<string, int>
    var pendingGotos: seq<PendingGoto>
    ghost var places: seq<Place>
    ghost var labels: seq<LabelDef>

    constructor (g: ControlFlowGraph)
      requires g.Value() == Cfg([ENTRY, EXIT], map[ENTRY := [], EXIT := []], [])
      ensures cfg == g && Valid() && State() == Snapshot(0, [], [], [], [])
    {
      cfg := g;
      counter := 0;
      sequenceTails := map[];
      labelTargets := map[];
      pendingGotos := [];
      places := [];
      labels := [];
      new;
      assert BlockOrder(0) == [ENTRY, EXIT];
      assert BlocksOf(0, []) == map[ENTRY := [], EXIT := []];
    }

    ghost function State(): Snapshot
      reads this, cfg
    {
      Snapshot(counter, cfg.edges, places, labels, pendingGotos)
    }

    ghost predicate Valid()
      reads this, cfg
    {
      && State().Sound()
      && cfg.order == BlockOrder(counter)
      && cfg.blocks == BlocksOf(counter, places)
      && (forall name :: name in labelTargets <==> LabelTarget(labels, name).Some?)
      && (forall name :: name in labelTargets ==> Some(labelTargets[name]) == LabelTarget(labels, name))
      && (forall b :: b in sequenceTails ==> b <= counter)
    }

    /** Recorded sequence ends are never lost, and new ones are for new blocks. */
    twostate predicate TailsGrow()
      reads this
    {
      && (forall b :: b in old(sequenceTails) ==> b in sequenceTails && sequenceTails[b] == old(sequenceTails[b]))
      && (forall b :: b in sequenceTails && b !in old(sequenceTails) ==> old(counter) < b)
    }

    method NewBlock() returns (b: int)
      requires Valid()
      modifies this, cfg
      ensures Valid() && State() == old(State()).(counter := old(counter) + 1)
      ensures b == counter && sequenceTails == old(sequenceTails)
    {
      NewBlockIsEmpty(State());
      assert BlockOrder(counter + 1) == BlockOrder(counter) + [counter + 1];
      counter := counter + 1;
      b := counter;
      cfg.blocks := cfg.blocks[b := []];
      cfg.order := cfg.order + [b];
    }

    method Append(b: int, id: NodeId)
      requires Valid() && 0 < b <= counter
      modifies this, cfg
      ensures Valid() && State() == old(State()).(places := old(places) + [Place(b, id)])
      ensures sequenceTails == old(sequenceTails)
    {
      AppendedBlock(State(), b, id);
      cfg.blocks := cfg.blocks[b := cfg.blocks[b] + [id]];
      places := places + [Place(b, id)];
    }

    method HoldsNothing(b: int) returns (empty: bool)
      requires Valid() && 0 < b <= counter
      ensures empty <==> State().At(b).offset == 0
    {
      empty := cfg.blocks[b] == [];
    }

    method AddEdge(e: Edge)
      requires Valid() && e.source <= counter
      modifies cfg
      ensures Valid() && State() == old(State()).(edges := old(cfg.edges) + [e])
    {
      cfg.edges := cfg.edges + [e];
    }

    method BindLabel(name: string, b: int)
      requires Valid() && b <= counter
      modifies this
      ensures Valid() && State() == old(State()).(labels := old(labels) + [LabelDef(name, b)])
      ensures sequenceTails == old(sequenceTails)
    {
      labelTargets := labelTargets[name := b];
      labels := labels + [LabelDef(name, b)];
      assert labels[..|labels| - 1] == old(labels);
    }

    /** Build blocks for a statement list; the entry is the first new block and
        the end is recorded for `TailOf`. */
    method BuildBlockSequence(statements: seq<Stmt>, loops: seq<LoopFrame>) returns (entry: int)
      requires Valid()
      modifies this, cfg
      ensures Valid() && TailsGrow()
      ensures State() == old(State()).Plus(BuildSequence(statements, old(counter), loops))
      ensures entry == old(counter) + 1
      ensures entry in sequenceTails
              && sequenceTails[entry] == BuildSequence(statements, old(counter), loops).next.block
      ensures old(counter) < counter
      decreases SizeAll(statements), 2
    {
      hide Walk, Step, Snapshot.Sound, BlocksOf, BlockOrder, LabelTarget, PlacedAt;
      ghost var start := State();
      ghost var total := Walk(statements, Fresh(start.counter), loops);
      ghost var done := Nothing(Fresh(start.counter));
      var current := NewBlock();
      entry := current;
      EmptyAtFresh(start);
      var i := 0;
      while i < |statements|
        invariant i <= |statements|
        invariant Valid() && TailsGrow() && entry !in sequenceTails
        invariant 0 < current <= counter && entry <= counter
        invariant State() == start.Plus(done) && State().At(current) == done.next
        invariant done.Then(Walk(statements[i..], done.next, loops)) == total
      {
        ghost var f := Step(statements[i], done.next, loops);
        WalkOnward(statements[i..], done, loops);
        PlusThen(start, done, f);
        SizeOfMember(statements, i);
        current := BuildStatement(statements[i], current, loops);
        assert statements[i..][1..] == statements[i + 1..];
        done := done.Then(f);
        i := i + 1;
      }
      WalkEnds(done, statements[i..], loops);
      if entry !in sequenceTails {
        sequenceTails := sequenceTails[entry := current];
      }
    }

    /** One statement of a list, handled in block `current`; returns the block
        to go on in. */
    method BuildStatement(s: Stmt, current: int, loops: seq<LoopFrame>) returns (next: int)
      requires Valid() && 0 < current <= counter
      modifies this, cfg
      ensures Valid() && TailsGrow()
      ensures State() == old(State()).Plus(Step(s, old(State().At(current)), loops))
      ensures 0 < next <= counter
      ensures State().At(next) == Step(s, old(State().At(current)), loops).next
      ensures old(counter) <= counter
      decreases Size(s), 1
    {
      hide BlocksOf, BlockOrder, LabelTarget, PlacedAt, Snapshot.Sound, Confined;
      ghost var start := State();
      ghost var f := Step(s, start.At(current), loops);
      StepConfined(s, start.At(current), loops);
      StandsAtNext(start, current, f, loops);
      match s {
        case If(_, _, _) => next := HandleIf(s, current, loops);
        case Loop(_, _, _) => next := HandleLoop(s, current, loops);
        case Switch(_, _) => next := HandleSwitch(s, current, loops);
        case Compound(_, _) => next := HandleCompound(s, current, loops);
        case Label(_, _) => next := HandleLabel(s, current);
        case Plain(_) => next := current; Append(current, s.id);
        case Case(_, _) => next := current; Append(current, s.id);
        case _ => next := HandleJump(s, current, loops);
      }
    }

    method HandleLabel(s: Stmt, current: int) returns (next: int)
      requires s.Label?
      requires Valid() && 0 < current <= counter
      modifies this, cfg
      ensures Valid() && sequenceTails == old(sequenceTails)
      ensures State() == old(State()).Plus(LabelStep(s.id, s.name, old(State().At(current))))
      ensures next == LabelStep(s.id, s.name, old(State().At(current))).next.block
    {
      hide Valid, PlacedAt;
      next := current;
      var empty := HoldsNothing(current);
      if !empty {
        next := NewBlock();
        AddEdge(Edge(current, next, Fallthrough));
      }
      BindLabel(s.name, next);
      Append(next, s.id);
    }

    /** Return, break, continue and goto end the current block. */
    method HandleJump(s: Stmt, current: int, loops: seq<LoopFrame>) returns (next: int)
      requires s.Return? || s.Break? || s.Continue? || s.Goto?
      requires Valid() && 0 < current <= counter
      modifies this, cfg
      ensures Valid() && sequenceTails == old(sequenceTails)
      ensures State() == old(State()).Plus(Step(s, old(State().At(current)), loops))
      ensures next == Step(s, old(State().At(current)), loops).next.block
    {
      hide Valid, PlacedAt;
      Append(current, s.id);
      match s {
        case Return(_) =>
          AddEdge(Edge(current, EXIT, ReturnEdge));
        case Break(_) =>
          if loops != [] {
            AddEdge(Edge(current, Last(loops).breakTarget, BreakEdge));
          }
        case Continue(_) =>
          if loops != [] {
            AddEdge(Edge(current, Last(loops).continueTarget, ContinueEdge));
          }
        case Goto(_, target) =>
          AddGoto(current, target);
      }
      next := NewBlock();
    }

    method AddGoto(b: int, target: string)
      requires Valid()
      modifies this
      ensures Valid() && sequenceTails == old(sequenceTails)
      ensures State() == old(State()).(gotos := old(pendingGotos) + [PendingGoto(b, target)])
    {
      pendingGotos := pendingGotos + [PendingGoto(b, target)];
    }

    method HandleCompound(s: Stmt, current: int, loops: seq<LoopFrame>) returns (next: int)
      requires s.Compound?
      requires Valid() && 0 < current <= counter
      modifies this, cfg
      ensures Valid() && TailsGrow()
      ensures State() == old(State()).Plus(CompoundStep(s, old(State().At(current)), loops))
      ensures next == CompoundStep(s, old(State().At(current)), loops).next.block
      decreases SizeAll(s.children), 3
    {
      hide Valid, PlacedAt, BuildSequence;
      ghost var start := State();
      SequenceConfined(s.children, counter, loops);
      var nested := BuildBlockSequence(s.children, loops);
      PlusWire(start, BuildSequence(s.children, start.counter, loops), [Edge(current, nested, Fallthrough)]);
      AddEdge(Edge(current, nested, Fallthrough));
      next := NewBlock();
    }

    method TailOf(entry: int) returns (tail: int)
      ensures tail == if entry in sequenceTails then sequenceTails[entry] else entry
    {
      tail := if entry in sequenceTails then sequenceTails[entry] else entry;
    }

    /** One side of an `if`. */
    method BuildBranch(b: Option<Stmt>, branch: int, join: int, kind: EdgeKind, loops: seq<LoopFrame>)
      requires Valid() && 0 < branch <= counter
      modifies this, cfg
      ensures Valid() && TailsGrow()
      ensures State() == old(State()).Plus(BranchStep(b, branch, join, old(counter), kind, loops))
      ensures old(counter) <= counter
      decreases OptionSize(b), 3
    {
      hide Valid, PlacedAt, BuildSequence;
      ghost var start := State();
      if b.Some? {
        SequenceConfined(Sequence(b), counter, loops);
        var entry := BuildBlockSequence(Sequence(b), loops);
        AddEdge(Edge(branch, entry, kind));
        var tail := TailOf(entry);
        AddEdge(Edge(tail, join, Fallthrough));
        ghost var f := BuildSequence(Sequence(b), start.counter, loops);
        PlusWire(start, f, [Edge(branch, entry, kind), Edge(tail, join, Fallthrough)]);
        assert start.edges + f.edges + [Edge(branch, entry, kind)] + [Edge(tail, join, Fallthrough)]
            == start.edges + f.edges + [Edge(branch, entry, kind), Edge(tail, join, Fallthrough)];
      } else {
        AddEdge(Edge(branch, join, kind));
        PlusWire(start, Nothing(Pos(join, 0, start.counter)), [Edge(branch, join, kind)]);
        PlusNothing(start, Nothing(Pos(join, 0, start.counter)));
      }
    }

    method HandleIf(s: Stmt, current: int, loops: seq<LoopFrame>) returns (next: int)
      requires s.If?
      requires Valid() && 0 < current <= counter
      modifies this, cfg
      ensures Valid() && TailsGrow()
      ensures State() == old(State()).Plus(IfStep(s, old(State().At(current)), loops))
      ensures next == IfStep(s, old(State().At(current)), loops).next.block
      decreases OptionSize(s.thenBranch) + OptionSize(s.elseBranch), 4
    {
      hide Valid, PlacedAt, BranchStep, IfShape, Snapshot.Plus;
      ghost var p := State().At(current);
      ghost var join := p.counter + 1;
      ghost var t := BranchStep(s.thenBranch, current, join, join, TrueBranch, loops);
      ghost var e := BranchStep(s.elseBranch, current, join, t.next.counter, FalseBranch, loops);
      IfAdds(State(), s.id, p, t, e);
      IfEnds(s.id, p, t, e);
      ghost var start := State();
      Append(current, s.id);
      next := NewBlock();
      PlusCounter(State(), t);
      BuildBranch(s.thenBranch, current, next, TrueBranch, loops);
      BuildBranch(s.elseBranch, current, next, FalseBranch, loops);
    }

    method HandleLoop(s: Stmt, current: int, loops: seq<LoopFrame>) returns (next: int)
      requires s.Loop?
      requires Valid() && 0 < current <= counter
      modifies this, cfg
      ensures Valid() && TailsGrow()
      ensures State() == old(State()).Plus(LoopStep(s, old(State().At(current)), loops))
      ensures next == LoopStep(s, old(State().At(current)), loops).next.block
      decreases OptionSize(s.body), 4
    {
      hide Valid, PlacedAt, LoopBodyStep, LoopShape;
      ghost var start := State();
      ghost var p := start.At(current);
      var header;
      header, next := OpenLoop(s.id, current);
      var kind := if s.kind.Do? then Fallthrough else TrueBranch;
      var inner := loops + [LoopFrame(header, next)];
      ghost var f := LoopBodyStep(s.body, header, next, kind, inner);
      LoopAdds(start, s.id, p, f);
      LoopEnds(s.id, p, f);
      LoopBodyAttached(s.body, header, next, kind, inner);
      BuildLoopBody(s.body, header, kind, inner);
      AddEdge(Edge(header, next, FalseBranch));
    }

    /** The header of a loop, the block after it and the edge into it. */
    method OpenLoop(id: NodeId, current: int) returns (header: int, next: int)
      requires Valid() && 0 < current <= counter
      modifies this, cfg
      ensures Valid() && sequenceTails == old(sequenceTails)
      ensures header == old(counter) + 1 && next == old(counter) + 2
      ensures State() == old(State()).(counter := next, places := old(places) + [Place(header, id)],
                edges := old(cfg.edges) + [Edge(current, header, Fallthrough)])
    {
      hide Valid, PlacedAt;
      header := NewBlock();
      Append(header, id);
      next := NewBlock();
      AddEdge(Edge(current, header, Fallthrough));
    }

    method BuildLoopBody(b: Option<Stmt>, header: int, kind: EdgeKind, loops: seq<LoopFrame>)
      requires Valid() && 0 < header <= counter
      modifies this, cfg
      ensures Valid() && TailsGrow()
      ensures State() == old(State()).Plus(LoopBodyStep(b, header, old(counter), kind, loops))
      decreases OptionSize(b), 3
    {
      hide Valid, PlacedAt, BuildSequence;
      ghost var start := State();
      if b.Some? {
        SequenceConfined(Sequence(b), counter, loops);
        var entry := BuildBlockSequence(Sequence(b), loops);
        AddEdge(Edge(header, entry, kind));
        var tail := TailOf(entry);
        AddEdge(Edge(tail, header, LoopBack));
        ghost var f := BuildSequence(Sequence(b), start.counter, loops);
        PlusWire(start, f, [Edge(header, entry, kind), Edge(tail, header, LoopBack)]);
        assert start.edges + f.edges + [Edge(header, entry, kind)] + [Edge(tail, header, LoopBack)]
            == start.edges + f.edges + [Edge(header, entry, kind), Edge(tail, header, LoopBack)];
      } else {
        PlusNothing(start, Nothing(Pos(header, 0, start.counter)));
      }
    }

    method HandleSwitch(s: Stmt, current: int, loops: seq<LoopFrame>) returns (next: int)
      requires s.Switch?
      requires Valid() && 0 < current <= counter
      modifies this, cfg
      ensures Valid() && TailsGrow()
      ensures State() == old(State()).Plus(SwitchStep(s, old(State().At(current)), loops))
      ensures next == SwitchStep(s, old(State().At(current)), loops).next.block
      decreases OptionSize(s.compound), 5
    {
      hide Valid, PlacedAt, SwitchShape, SwitchParts, Snapshot.Plus;
      ghost var start := State();
      ghost var p := start.At(current);
      ghost var parts := SwitchParts(s, current, start.counter + 1, loops);
      SwitchBody(s, p, loops);
      SwitchAdds(start, s.id, p, parts.0, parts.1);
      SwitchEnds(s.id, p, parts.0, parts.1);
      Append(current, s.id);
      next := NewBlock();
      BuildSwitchParts(s, current, next, loops);
    }

    /** The groups of a switch and the ways past it. */
    method BuildSwitchParts(s: Stmt, current: int, next: int, loops: seq<LoopFrame>)
      requires s.Switch?
      requires Valid() && 0 < current <= counter && next == counter
      modifies this, cfg
      ensures Valid() && TailsGrow()
      ensures var parts := SwitchParts(s, current, old(counter), loops);
        State() == old(State()).Plus(parts.0.Wire(parts.1))
      decreases OptionSize(s.compound), 4
    {
      hide Valid, PlacedAt, GroupsStep, SwitchExits, CaseGroups, HasDefault;
      ghost var start := State();
      if s.compound.Some? && s.compound.value.Compound? {
        var groups := GroupCases(s.compound.value.children);
        assert SizeGroups(groups) < Size(s.compound.value);
        BuildGroups(groups, current, next, loops + [LoopFrame(current, next)]);
      } else {
        AddEdge(Edge(current, next, Fallthrough));
        PlusEdge(start, Nothing(Pos(next, 0, next)), [Edge(current, next, Fallthrough)]);
      }
    }

    /** Build the case groups of a switch and wire them, each from the switch
        block and from the end of the one before it unless that already left. */
    method BuildGroups(groups: seq<seq<Stmt>>, switchBlock: int, after: int, loops: seq<LoopFrame>)
      requires forall g: seq<Stmt> :: g in groups ==> |g| > 0 && g[0].Case?
      requires Valid() && 0 < switchBlock <= counter
      modifies this, cfg
      ensures Valid() && TailsGrow()
      ensures var f := GroupsStep(groups, switchBlock, old(counter), loops, None);
              State() == old(State()).Plus(f.Wire(SwitchExits(switchBlock, after, groups, f.next.block)))
      decreases SizeGroups(groups), 4
    {
      hide Valid, PlacedAt, GroupsStep, GroupFrag, HasDefault;
      ghost var start := State();
      ghost var total := GroupsStep(groups, switchBlock, counter, loops, None);
      ghost var done := Nothing(Pos(switchBlock, 0, counter));
      var previous: Option<int> := None;
      NothingThen(done, total);
      PlusNothing(start, done);
      var i := 0;
      while i < |groups|
        invariant i <= |groups|
        invariant Valid() && TailsGrow() && start.counter <= counter
        invariant previous.Some? <==> i > 0
        invariant previous.Some? ==> Dangling(previous.value) && previous.value != switchBlock
        invariant State() == start.Plus(done)
        invariant previous.Some? ==> done.next.block == previous.value
        invariant done.Then(GroupsStep(groups[i..], switchBlock, counter, loops, previous)) == total
      {
        ghost var step := GroupFrag(groups[i], switchBlock, counter, loops, previous);
        GroupsOnward(groups[i..], switchBlock, done, loops, previous);
        PlusThen(start, done, step);
        SizeOfGroup(groups, i);
        previous := BuildGroup(groups[i], switchBlock, loops, previous);
        assert groups[i..][1..] == groups[i + 1..];
        done := done.Then(step);
        i := i + 1;
      }
      GroupsEnd(done, groups[i..], switchBlock, counter, loops, previous);
      if previous.Some? {
        var leaves := Terminates(previous.value);
        if !leaves {
          AddEdge(Edge(previous.value, after, Fallthrough));
        }
      }
      if !HasDefault(groups) {
        AddEdge(Edge(switchBlock, after, NoMatch));
      }
      PlusWire(start, total, SwitchExits(switchBlock, after, groups, total.next.block));
    }

    /** A created block that no edge leaves. */
    ghost predicate Dangling(b: int)
      reads this, cfg
    {
      0 < b <= counter && forall e :: e in cfg.edges ==> e.source != b
    }

    /** One case group; returns its end, which nothing leaves yet. */
    method BuildGroup(group: seq<Stmt>, switchBlock: int, loops: seq<LoopFrame>, previous: Option<int>)
      returns (tail: Option<int>)
      requires |group| > 0 && group[0].Case?
      requires Valid() && 0 < switchBlock <= counter
      requires previous.Some? ==> Dangling(previous.value) && previous.value != switchBlock
      modifies this, cfg
      ensures Valid() && TailsGrow()
      ensures State() == old(State()).Plus(GroupFrag(group, switchBlock, old(counter), loops, previous))
      ensures tail == Some(GroupFrag(group, switchBlock, old(counter), loops, previous).next.block)
      ensures old(counter) < tail.value && Dangling(tail.value)
      decreases SizeAll(group), 3, 1
    {
      hide Valid, PlacedAt, BuildSequence, Dangling;
      ghost var start := State();
      ghost var f := BuildSequence(group, start.counter, loops);
      var entry, t := BuildGroupBlocks(group, loops, previous);
      tail := Some(t);
      EnterGroup(group[0].isDefault, switchBlock, entry, previous);
      PlusWire(start, f, GroupEntries(group[0].isDefault, switchBlock, entry, previous));
    }

    /** The blocks of one case group, before anything enters or leaves them. */
    method BuildGroupBlocks(group: seq<Stmt>, loops: seq<LoopFrame>, ghost previous: Option<int>)
      returns (entry: int, tail: int)
      requires Valid() && (previous.Some? ==> Dangling(previous.value))
      modifies this, cfg
      ensures Valid() && TailsGrow()
      ensures State() == old(State()).Plus(BuildSequence(group, old(counter), loops))
      ensures entry == old(counter) + 1 && tail == BuildSequence(group, old(counter), loops).next.block
      ensures old(counter) < tail <= counter && Dangling(tail)
      ensures previous.Some? ==> Dangling(previous.value) && previous.value <= old(counter)
      decreases SizeAll(group), 3, 0
    {
      ghost var start := State();
      assert start.Sound();
      hide Valid, PlacedAt, BuildSequence, Snapshot.Sound;
      ghost var f := BuildSequence(group, start.counter, loops);
      SequenceConfined(group, start.counter, loops);
      StandsAfterSequence(start, f, loops);
      entry := BuildBlockSequence(group, loops);
      tail := TailOf(entry);
    }

    /** The edges into a case group. */
    function GroupEntries(isDefault: bool, switchBlock: int, entry: int, previous: Option<int>): seq<Edge>
    {
      [Edge(switchBlock, entry, if isDefault then DefaultEdge else CaseEdge)]
      + if previous.Some? then [Edge(previous.value, entry, SwitchFallthrough)] else []
    }

    method EnterGroup(isDefault: bool, switchBlock: int, entry: int, previous: Option<int>)
      requires Valid() && 0 < switchBlock <= counter
      requires previous.Some? ==> Dangling(previous.value) && previous.value != switchBlock
      modifies cfg
      ensures Valid()
      ensures State() == old(State()).(edges := old(cfg.edges) + GroupEntries(isDefault, switchBlock, entry, previous))
      ensures forall b {:trigger Dangling(b)} ::
        old(Dangling(b)) && b != switchBlock && (previous.Some? ==> b != previous.value) ==> Dangling(b)
    {
      hide Valid, PlacedAt;
      AddEdge(Edge(switchBlock, entry, if isDefault then DefaultEdge else CaseEdge));
      if previous.Some? {
        var leaves := Terminates(previous.value);
        if !leaves {
          AddEdge(Edge(previous.value, entry, SwitchFallthrough));
        }
      }
    }

    /** Whether a block has already been left by a return, break or goto. */
    method Terminates(b: int) returns (leaves: bool)
      ensures leaves <==> exists e :: e in cfg.edges && e.source == b
                                      && (e.kind == ReturnEdge || e.kind == BreakEdge || e.kind == GotoEdge)
    {
      var out := Successors(cfg.edges, b);
      leaves := exists e :: e in out && (e.kind == ReturnEdge || e.kind == BreakEdge || e.kind == GotoEdge);
    }

    /** The end of the body falls off into the exit when it is reached and does
        not lead on. */
    method ReturnImplicitly(tail: int)
      requires Valid() && tail <= counter
      modifies cfg
      ensures Valid()
      ensures State() == old(State()).(edges := old(cfg.edges) + ImplicitReturnEdges(old(cfg.edges), tail))
    {
      hide Valid, PlacedAt;
      var out := Successors(cfg.edges, tail);
      var into := Predecessors(cfg.edges, tail);
      if out == [] && into != [] {
        AddEdge(Edge(tail, EXIT, ImplicitReturn));
      } else {
        assert cfg.edges + [] == cfg.edges;
      }
    }

    /** Once every label is known, send each goto to its label, or to the exit. */
    method WireGotos()
      requires Valid()
      requires forall g :: g in pendingGotos ==> g.block <= counter
      modifies cfg
      ensures Valid()
      ensures State() == old(State()).(edges := old(cfg.edges) + GotoEdges(pendingGotos, labels))
    {
      hide PlacedAt, BlocksOf, BlockOrder, LabelTarget;
      var i := 0;
      assert pendingGotos[0..] == pendingGotos;
      while i < |pendingGotos|
        invariant i <= |pendingGotos|
        invariant Valid() && State() == old(State()).(edges := cfg.edges)
        invariant cfg.edges + GotoEdges(pendingGotos[i..], labels) == old(cfg.edges) + GotoEdges(pendingGotos, labels)
      {
        var g := pendingGotos[i];
        var target := if g.name in labelTargets then labelTargets[g.name] else EXIT;
        ghost var rest := GotoEdges(pendingGotos[i + 1..], labels);
        assert pendingGotos[i..][1..] == pendingGotos[i + 1..];
        assert GotoEdges(pendingGotos[i..], labels) == [Edge(g.block, target, GotoEdge)] + rest;
        assert cfg.edges + ([Edge(g.block, target, GotoEdge)] + rest) == cfg.edges + [Edge(g.block, target, GotoEdge)] + rest;
        AddEdge(Edge(g.block, target, GotoEdge));
        i := i + 1;
      }
    }

    /** Cut the children of a switch body before each case or default label. */
    method GroupCases(statements: seq<Stmt>) returns (groups: seq<seq<Stmt>>)
      ensures groups == CaseGroups(statements)
      ensures LaidOut(groups) == statements[GroupLength(statements)..]
      ensures forall g: seq<Stmt> :: g in groups ==> g != [] && g[0].Case? && forall s :: s in g[1..] ==> !s.Case?
    {
      hide CaseGroups, LaidOut;
      groups := [];
      var current: Option<seq<Stmt>> := None;
      var i := 0;
      CutNone(statements);
      while i < |statements|
        invariant i <= |statements|
        invariant OpenGroup(current)
        invariant CaseGroups(statements) == groups + CaseGroups(Pending(current) + statements[i..])
      {
        var s := statements[i];
        assert statements[i..][1..] == statements[i + 1..];
        if s.Case? {
          CutBefore(groups, current, statements[i..]);
          if current.Some? {
            groups := groups + [current.value];
          }
          current := Some([s]);
        } else if current.Some? {
          JoinGroup(current.value, statements[i..]);
          current := Some(current.value + [s]);
        } else {
          DropStatement(statements[i..]);
        }
        i := i + 1;
      }
      assert statements[i..] == [];
      CutLast(groups, current);
      if current.Some? {
        groups := groups + [current.value];
      }
      CaseGroupsLayOut(statements);
    }
  }

  /** A group being collected: its label and no other so far. */
  ghost predicate OpenGroup(current: Option<seq<Stmt>>)
  {
    current.Some? ==> current.value != [] && current.value[0].Case? && forall s :: s in current.value[1..] ==> !s.Case?
  }

  function Pending(current: Option<seq<Stmt>>): seq<Stmt>
  {
    if current.Some? then current.value else []
  }

  lemma CutNone(ss: seq<Stmt>)
    ensures CaseGroups(ss) == [] + CaseGroups(Pending(None) + ss[0..])
  {
    assert Pending(None) + ss[0..] == ss;
  }

  /** A label closes the group before it. */
  lemma CutBefore(groups: seq<seq<Stmt>>, current: Option<seq<Stmt>>, rest: seq<Stmt>)
    requires OpenGroup(current) && rest != [] && rest[0].Case?
    ensures groups + CaseGroups(Pending(current) + rest)
            == (if current.Some? then groups + [current.value] else groups) + CaseGroups(Pending(Some([rest[0]])) + rest[1..])
  {
    hide CaseGroups, OpenGroup;
    assert Pending(Some([rest[0]])) + rest[1..] == rest;
    if current.Some? {
      CutOpenGroup(groups, current.value, rest);
    } else {
      assert Pending(None) + rest == rest;
    }
  }

  lemma CutOpenGroup(groups: seq<seq<Stmt>>, group: seq<Stmt>, rest: seq<Stmt>)
    requires OpenGroup(Some(group)) && (rest == [] || rest[0].Case?)
    ensures groups + CaseGroups(group + rest) == groups + [group] + CaseGroups(rest)
  {
    hide CaseGroups;
    CutGroup(group, rest);
    Regroup(groups, group, CaseGroups(rest));
  }

  lemma Regroup(groups: seq<seq<Stmt>>, group: seq<Stmt>, more: seq<seq<Stmt>>)
    ensures groups + ([group] + more) == groups + [group] + more
  {
  }

  /** Any other statement joins the open group. */
  lemma JoinGroup(group: seq<Stmt>, rest: seq<Stmt>)
    requires OpenGroup(Some(group)) && rest != [] && !rest[0].Case?
    ensures OpenGroup(Some(group + [rest[0]]))
    ensures group + rest == (group + [rest[0]]) + rest[1..]
  {
    assert (group + [rest[0]])[1..] == group[1..] + [rest[0]];
  }

  /** Statements before the first label are dropped. */
  lemma DropStatement(rest: seq<Stmt>)
    requires rest != [] && !rest[0].Case?
    ensures CaseGroups(Pending(None) + rest) == CaseGroups(Pending(None) + rest[1..])
  {
    hide CaseGroups;
    SkipToLabel(rest);
    assert [] + rest == rest && [] + rest[1..] == rest[1..];
  }

  lemma CutLast(groups: seq<seq<Stmt>>, current: Option<seq<Stmt>>)
    requires OpenGroup(current)
    ensures groups + CaseGroups(Pending(current) + []) == if current.Some? then groups + [current.value] else groups
  {
    hide CaseGroups;
    NoGroups();
    if current.Some? {
      CutGroup(current.value, []);
    }
  }

  /** What a switch adds after its own block: its groups, and the ways past it. */
  ghost function SwitchParts(s: Stmt, switchBlock: int, after: nat, loops: seq<LoopFrame>): (Frag, seq<Edge>)
    requires s.Switch?
  {
    if s.compound.Some? && s.compound.value.Compound? then
      var groups := CaseGroups(s.compound.value.children);
      var f := GroupsStep(groups, switchBlock, after, loops + [LoopFrame(switchBlock, after)], None);
      (f, SwitchExits(switchBlock, after, groups, f.next.block))
    else (Nothing(Pos(after, 0, after)), [Edge(switchBlock, after, Fallthrough)])
  }

  lemma SwitchBody(s: Stmt, p: Pos, loops: seq<LoopFrame>)
    requires s.Switch?
    ensures var parts := SwitchParts(s, p.block, p.counter + 1, loops);
      SwitchStep(s, p, loops) == SwitchShape(s.id, p, parts.0, parts.1)
  {
    hide GroupsStep, SwitchShape, SwitchExits, CaseGroups;
  }

  lemma SkipToLabel(ss: seq<Stmt>)
    requires ss != [] && !ss[0].Case?
    ensures CaseGroups(ss) == CaseGroups(ss[1..])
  {
  }

  lemma NoGroups()
    ensures CaseGroups([]) == []
  {
  }

  lemma EmptyAtFresh(s: Snapshot)
    requires s.Sound()
    ensures s.(counter := s.counter + 1) == s.Plus(Nothing(Fresh(s.counter)))
    ensures s.(counter := s.counter + 1).At(s.counter + 1) == Fresh(s.counter)
  {
    PlacedAtNowhere(s.places, s.counter + 1);
  }

  lemma WalkEnds(done: Frag, ss: seq<Stmt>, loops: seq<LoopFrame>)
    requires ss == []
    ensures done.Then(Walk(ss, done.next, loops)) == done
  {
  }

  lemma NothingThen(f: Frag, g: Frag)
    requires f == Nothing(f.next)
    ensures f.Then(g) == g
  {
  }

  lemma GroupsEnd(done: Frag, groups: seq<seq<Stmt>>, switchBlock: int, counter: nat, loops: seq<LoopFrame>,
                  previous: Option<int>)
    requires groups == []
    requires done.next.counter == counter
    requires previous.Some? ==> done.next.block == previous.value
    ensures var total := done.Then(GroupsStep(groups, switchBlock, counter, loops, previous));
            && total.edges == done.edges && total.places == done.places
            && total.labels == done.labels && total.gotos == done.gotos && total.next.counter == done.next.counter
            && (previous.Some? ==> total.next.block == previous.value)
  {
  }

  lemma IfEnds(id: NodeId, p: Pos, t: Frag, e: Frag)
    ensures IfShape(id, p, t, e).next.block == p.counter + 1
  {
  }

  lemma LoopEnds(id: NodeId, p: Pos, f: Frag)
    ensures LoopShape(id, p, f).next.block == p.counter + 2
  {
  }

  lemma SwitchEnds(id: NodeId, p: Pos, f: Frag, exits: seq<Edge>)
    ensures SwitchShape(id, p, f, exits).next.block == p.counter + 1
  {
  }

  lemma PlusCounter(s: Snapshot, f: Frag)
    ensures s.Plus(f).counter == f.next.counter
  {
  }

  lemma PlusEdge(s: Snapshot, f: Frag, more: seq<Edge>)
    requires f == Nothing(f.next) && f.next.counter == s.counter
    ensures s.Plus(f.Wire(more)) == s.(edges := s.edges + more)
  {
    assert f.edges + more == more;
  }

  /** A label with its statements is the first group of what starts with it. */
  lemma CutGroup(group: seq<Stmt>, rest: seq<Stmt>)
    requires group != [] && group[0].Case? && forall s :: s in group[1..] ==> !s.Case?
    requires rest == [] || rest[0].Case?
    ensures CaseGroups(group + rest) == [group] + CaseGroups(rest)
  {
    var ss := group + rest;
    assert ss[1..] == group[1..] + rest;
    GroupLengthIs(group[1..], rest);
    assert ss[..|group|] == group && ss[|group|..] == rest;
  }

  lemma {:induction false} GroupLengthIs(a: seq<Stmt>, b: seq<Stmt>)
    requires forall s :: s in a ==> !s.Case?
    requires b == [] || b[0].Case?
    ensures GroupLength(a + b) == |a|
  {
    if a == [] {
      assert a + b == b;
    } else {
      assert (a + b)[1..] == a[1..] + b;
      GroupLengthIs(a[1..], b);
    }
  }

  lemma GroupsOnward(groups: seq<seq<Stmt>>, switchBlock: int, done: Frag, loops: seq<LoopFrame>, previous: Option<int>)
    requires forall g: seq<Stmt> :: g in groups ==> |g| > 0 && g[0].Case?
    requires groups != []
    ensures var f := GroupFrag(groups[0], switchBlock, done.next.counter, loops, previous);
            done.Then(GroupsStep(groups, switchBlock, done.next.counter, loops, previous))
            == done.Then(f).Then(GroupsStep(groups[1..], switchBlock, f.next.counter, loops, Some(f.next.block)))
  {
    hide GroupFrag;
    var f := GroupFrag(groups[0], switchBlock, done.next.counter, loops, previous);
    var g := GroupsStep(groups[1..], switchBlock, f.next.counter, loops, Some(f.next.block));
    assert GroupsStep(groups, switchBlock, done.next.counter, loops, previous) == f.Then(g);
    ThenAssociative(done, f, g);
  }

  lemma ThenAssociative(a: Frag, b: Frag, c: Frag)
    ensures a.Then(b).Then(c) == a.Then(b.Then(c))
  {
    assert (a.edges + b.edges) + c.edges == a.edges + (b.edges + c.edges);
    assert (a.places + b.places) + c.places == a.places + (b.places + c.places);
    assert (a.labels + b.labels) + c.labels == a.labels + (b.labels + c.labels);
    assert (a.gotos + b.gotos) + c.gotos == a.gotos + (b.gotos + c.gotos);
  }

  lemma WalkOnward(ss: seq<Stmt>, done: Frag, loops: seq<LoopFrame>)
    requires ss != []
    ensures var f := Step(ss[0], done.next, loops);
            done.Then(Walk(ss, done.next, loops)) == done.Then(f).Then(Walk(ss[1..], f.next, loops))
  {
    hide Step;
    var f := Step(ss[0], done.next, loops);
    var g := Walk(ss[1..], f.next, loops);
    assert Walk(ss, done.next, loops) == f.Then(g);
    ThenAssociative(done, f, g);
  }

  /** The graph of a function body. */
  method Build(body: seq<Stmt>) returns (cfg: ControlFlowGraph)
    ensures fresh(cfg)
    ensures PrunedTo(RawGraph(body), cfg.Value()) && WellFormed(cfg.Value())
    ensures FullyPruned(cfg.Value()) && BranchesShow(body, cfg.Value()) && LabelsHead(body, cfg.Value())
    ensures RegularAll(body, AtTop) ==> forall t :: CompleteRun(AsBuilt, body, t) <==> GraphTrace(cfg.Value(), t)
    ensures Faithful(body) ==> forall t :: CompleteRun(InC, body, t) <==> GraphTrace(cfg.Value(), t)
    ensures NoRepeats(NodesOf(body)) ==> StatementsOnce(cfg.Value()) && GotosJump(body, cfg.Value())
  {
    hide WellFormed, PrunedTo, RawGraph, GraphTrace, CompleteRun, RegularAll, CleanAll, FullyPruned, StatementsOnce,
         NoRepeats, NodesOf, GotosJump, BranchesShow, LabelsHead;
    cfg := BuildRaw(body);
    RawGraphWellFormed(body);
    PrunedSelf(RawGraph(body));
    if body != [] {
      cfg.Prune();
    } else {
      NothingToPrune(cfg.Value());
    }
    BuiltIsExact(body, cfg.Value());
    BranchesAreShown(body, cfg.Value());
    PrunedLabelsHead(body, cfg.Value());
  }

  lemma NothingToPrune(g: Cfg)
    requires g == RawGraph([])
    ensures FullyPruned(g)
  {
  }

  lemma BuiltIsExact(body: seq<Stmt>, g: Cfg)
    requires PrunedTo(RawGraph(body), g)
    ensures RegularAll(body, AtTop) ==> forall t :: CompleteRun(AsBuilt, body, t) <==> GraphTrace(g, t)
    ensures Faithful(body) ==> forall t :: CompleteRun(InC, body, t) <==> GraphTrace(g, t)
    ensures NoRepeats(NodesOf(body)) ==> StatementsOnce(g) && GotosJump(body, g)
  {
    hide RawGraph, GraphTrace, CompleteRun, RegularAll, CleanAll, GotosJump, NodesOf, NoRepeats;
    if RegularAll(body, AtTop) {
      forall t
        ensures CompleteRun(AsBuilt, body, t) <==> GraphTrace(g, t)
        ensures Faithful(body) ==> (CompleteRun(InC, body, t) <==> GraphTrace(g, t))
      {
        PrunedGraphExact(body, g, t);
      }
    }
    if NoRepeats(NodesOf(body)) {
      RawGraphStatementsOnce(body);
      PrunedGotosJump(body, g);
      var gs :| PruneSteps(gs) && gs[0] == RawGraph(body) && Last(gs) == g;
      PrunedBlocks(gs);
    }
  }

  /** The graph before pruning. */
  method BuildRaw(body: seq<Stmt>) returns (cfg: ControlFlowGraph)
    ensures fresh(cfg) && cfg.Value() == RawGraph(body)
  {
    hide BlockOrder, BlocksOf, BuildSequence, ImplicitReturnEdges, GotoEdges;
    cfg := new ControlFlowGraph();
    if body == [] {
      cfg.edges := [Edge(ENTRY, EXIT, Fallthrough)];
      EmptyGraph();
    } else {
      var builder := new CfgBuilder(cfg);
      ghost var start := builder.State();
      ghost var f := BuildSequence(body, 0, []);
      SequenceConfined(body, 0, []);
      var entry := builder.BuildBlockSequence(body, []);
      assert start.Plus(f) == Snapshot(f.next.counter, f.edges, f.places, f.labels, f.gotos);
      builder.AddEdge(Edge(ENTRY, entry, Fallthrough));
      var tail := builder.TailOf(entry);
      builder.ReturnImplicitly(tail);
      builder.WireGotos();
    }
  }

  lemma EmptyGraph()
    ensures BlockOrder(0) == [ENTRY, EXIT] && BlocksOf(0, []) == map[ENTRY := [], EXIT := []]
  {
  }
}
