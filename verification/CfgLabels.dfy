/** Where labels stand: every label is the first statement of its block, so a
    `goto` resumes at its label and not before it. */
module CfgLabels {
  import opened Collections
  import opened Ast
  import opened Runs
  import opened Paths
  import opened CfgSpec
  import opened CfgWellFormed
  import opened CfgNodes
  import opened CfgPrune
  import opened CfgTails
  import opened CfgContinues
  import opened CfgGotos

  /** No statement is placed in the block of a label before it. */
  ghost predicate Heads(bs: seq<Stmt>, places: seq<Place>)
  {
    |bs| == |places| && forall i, j :: 0 <= j < i < |bs| && bs[i].Label? ==> places[j].block != places[i].block
  }

  /** A label stays in the block where building starts only if that is empty. */
  ghost predicate Free(bs: seq<Stmt>, places: seq<Place>, p: Pos)
  {
    |bs| == |places| && forall i :: 0 <= i < |bs| && bs[i].Label? && places[i].block == p.block ==> p.offset == 0
  }

  lemma HeadsThen(a: seq<Stmt>, before: seq<Place>, b: seq<Stmt>, after: seq<Place>)
    requires Heads(a, before) && Heads(b, after)
    requires forall i, x :: 0 <= i < |b| && b[i].Label? && x in before ==> x.block != after[i].block
    ensures Heads(a + b, before + after)
  {
    var bs, places := a + b, before + after;
    forall i, j | 0 <= j < i < |bs| && bs[i].Label?
      ensures places[j].block != places[i].block
    {
      if j < |a| <= i {
        assert before[j] in before && b[i - |a|].Label?;
      }
    }
  }

  lemma HeadsApart(a: seq<Stmt>, before: seq<Place>, b: seq<Stmt>, after: seq<Place>, c: int)
    requires Heads(a, before) && Heads(b, after)
    requires (forall x :: x in before ==> x.block <= c) && forall x :: x in after ==> c < x.block
    ensures Heads(a + b, before + after)
  {
    HeadsThen(a, before, b, after);
  }

  lemma {:induction false} NotPlacedAt(places: seq<Place>, b: int)
    requires PlacedAt(places, b) == []
    ensures forall x :: x in places ==> x.block != b
  {
    if places != [] {
      NotPlacedAt(places[1..], b);
    }
  }

  lemma {:induction false} WalkHeads(ss: seq<Stmt>, p: Pos, loops: seq<LoopFrame>)
    requires Placed(p)
    ensures var f := Walk(ss, p, loops);
      Heads(BuiltAll(ss), f.places) && Free(BuiltAll(ss), f.places, p)
    decreases SizeAll(ss), 1
  {
    if ss != [] {
      hide Step, Built, Heads, Free;
      var f := Step(ss[0], p, loops);
      StepHeads(ss[0], p, loops);
      StepConfined(ss[0], p, loops);
      WalkHeads(ss[1..], f.next, loops);
      WalkConfined(ss[1..], f.next, loops);
      StepThenWalk(f, Walk(ss[1..], f.next, loops), p, loops, Built(ss[0]), BuiltAll(ss[1..]));
    }
  }

  lemma StepThenWalk(f: Frag, g: Frag, p: Pos, loops: seq<LoopFrame>, a: seq<Stmt>, b: seq<Stmt>)
    requires Placed(p) && Confined(f, p, loops) && Confined(g, f.next, loops)
    requires Heads(a, f.places) && Free(a, f.places, p) && Heads(b, g.places) && Free(b, g.places, f.next)
    ensures Heads(a + b, f.places + g.places) && Free(a + b, f.places + g.places, p)
  {
    forall i | 0 <= i < |b| && b[i].Label?
      ensures forall x :: x in f.places ==> x.block != g.places[i].block
      ensures g.places[i].block == p.block ==> p.offset == 0
    {
      var y := g.places[i].block;
      assert g.places[i] in g.places;
      if y == f.next.block {
        NotPlacedAt(f.places, y);
      }
    }
    HeadsThen(a, f.places, b, g.places);
  }

  lemma {:induction false} SequenceHeads(ss: seq<Stmt>, counter: nat, loops: seq<LoopFrame>)
    ensures var f := BuildSequence(ss, counter, loops);
      Heads(BuiltAll(ss), f.places) && counter <= f.next.counter && forall x :: x in f.places ==> counter < x.block <= f.next.counter
    decreases SizeAll(ss), 2
  {
    hide Walk, Heads;
    WalkHeads(ss, Fresh(counter), loops);
    SequenceConfined(ss, counter, loops);
  }

  lemma {:induction false} StepHeads(s: Stmt, p: Pos, loops: seq<LoopFrame>)
    requires Placed(p)
    ensures var f := Step(s, p, loops);
      Heads(Built(s), f.places) && Free(Built(s), f.places, p)
    decreases Size(s), 0
  {
    hide IfStep, LoopStep, SwitchStep, BuildSequence;
    match s
    case Compound(_, ss) => SequenceHeads(ss, p.counter, loops);
    case If(_, _, _) => IfHeads(s, p, loops);
    case Loop(_, _, _) => LoopHeads(s, p, loops);
    case Switch(_, _) => SwitchHeads(s, p, loops);
    case _ => SimpleHeads(s, p, loops);
  }

  lemma SimpleHeads(s: Stmt, p: Pos, loops: seq<LoopFrame>)
    requires Placed(p) && !s.Compound? && !s.If? && !s.Loop? && !s.Switch?
    ensures var f := Step(s, p, loops); Heads([s], f.places) && Free([s], f.places, p)
  {
    assert |Step(s, p, loops).places| == 1;
  }

  lemma {:induction false} BodyHeads(b: Option<Stmt>, hub: int, meet: int, counter: nat, kind: EdgeKind, loops: seq<LoopFrame>)
    ensures Heads(BuiltAll(Sequence(b)), BranchStep(b, hub, meet, counter, kind, loops).places)
    ensures Heads(BuiltAll(Sequence(b)), LoopBodyStep(b, hub, counter, kind, loops).places)
    decreases OptionSize(b), 3
  {
    if b.Some? {
      hide BuildSequence, Heads, BuiltAll;
      SequenceHeads(Sequence(b), counter, loops);
    }
  }

  lemma FreeElsewhere(bs: seq<Stmt>, places: seq<Place>, p: Pos)
    requires |bs| == |places| && forall i :: 0 <= i < |bs| && bs[i].Label? ==> places[i].block != p.block
    ensures Free(bs, places, p)
  {
  }

  /** A statement before what it contains. */
  lemma HeadFirst(s: Stmt, x: Place, bs: seq<Stmt>, places: seq<Place>, p: Pos)
    requires !s.Label? && Heads(bs, places) && Placed(p)
    requires forall y :: y in places ==> p.counter < y.block && x.block < y.block
    ensures Heads([s] + bs, [x] + places) && Free([s] + bs, [x] + places, p)
  {
    HeadsApart([s], [x], bs, places, x.block);
    forall i | 0 <= i < |bs| + 1 && ([s] + bs)[i].Label?
      ensures ([x] + places)[i].block != p.block
    {
      assert places[i - 1] in places;
    }
    FreeElsewhere([s] + bs, [x] + places, p);
  }

  lemma {:induction false} IfHeads(s: Stmt, p: Pos, loops: seq<LoopFrame>)
    requires s.If? && Placed(p)
    ensures var f := IfStep(s, p, loops); Heads(Built(s), f.places) && Free(Built(s), f.places, p)
    decreases OptionSize(s.thenBranch) + OptionSize(s.elseBranch), 4
  {
    hide BranchStep, Heads, Free, BuiltAll;
    var join := p.counter + 1;
    var f := BranchStep(s.thenBranch, p.block, join, join, TrueBranch, loops);
    var g := BranchStep(s.elseBranch, p.block, join, f.next.counter, FalseBranch, loops);
    var a, b := BuiltAll(Sequence(s.thenBranch)), BuiltAll(Sequence(s.elseBranch));
    BranchAttached(s.thenBranch, p.block, join, join, TrueBranch, loops);
    BranchAttached(s.elseBranch, p.block, join, f.next.counter, FalseBranch, loops);
    BodyHeads(s.thenBranch, p.block, join, join, TrueBranch, loops);
    BodyHeads(s.elseBranch, p.block, join, f.next.counter, FalseBranch, loops);
    HeadsApart(a, f.places, b, g.places, f.next.counter);
    HeadFirst(s, Place(p.block, s.id), a + b, f.places + g.places, p);
    assert [s] + a + b == [s] + (a + b);
    assert IfStep(s, p, loops).places == [Place(p.block, s.id)] + (f.places + g.places);
  }

  lemma {:induction false} LoopHeads(s: Stmt, p: Pos, loops: seq<LoopFrame>)
    requires s.Loop? && Placed(p)
    ensures var f := LoopStep(s, p, loops); Heads(Built(s), f.places) && Free(Built(s), f.places, p)
    decreases OptionSize(s.body), 4
  {
    hide LoopBodyStep, Heads, Free, BuiltAll;
    var header, after := p.counter + 1, p.counter + 2;
    var inner := loops + [LoopFrame(header, after)];
    var kind := if s.kind.Do? then Fallthrough else TrueBranch;
    var f := LoopBodyStep(s.body, header, after, kind, inner);
    LoopBodyAttached(s.body, header, after, kind, inner);
    BodyHeads(s.body, header, header, after, kind, inner);
    HeadFirst(s, Place(header, s.id), BuiltAll(Sequence(s.body)), f.places, p);
    assert LoopStep(s, p, loops).places == [Place(header, s.id)] + f.places;
  }

  lemma {:induction false} SwitchHeads(s: Stmt, p: Pos, loops: seq<LoopFrame>)
    requires s.Switch? && Placed(p)
    ensures var f := SwitchStep(s, p, loops); Heads(Built(s), f.places) && Free(Built(s), f.places, p)
    decreases OptionSize(s.compound), 3
  {
    hide GroupsStep, CaseGroups, SwitchExits, Heads, Free, BuiltAll;
    var after := p.counter + 1;
    if Braced(s.compound) {
      var ss, inner := Sequence(s.compound), loops + [LoopFrame(p.block, after)];
      assert SizeAll(ss) < Size(s.compound.value);
      var f := GroupsStep(CaseGroups(ss), p.block, after, inner, None);
      GroupsHead(ss, p.block, after, inner, None);
      GroupsAttached(CaseGroups(ss), p.block, after, inner, None);
      HeadFirst(s, Place(p.block, s.id), BuiltFromLabel(ss), f.places, p);
      assert SwitchStep(s, p, loops).places == [Place(p.block, s.id)] + f.places;
    } else {
      NoHeads();
      HeadFirst(s, Place(p.block, s.id), [], [], p);
      assert [s] + [] == [s] && [Place(p.block, s.id)] + [] == [Place(p.block, s.id)];
    }
  }

  lemma NoHeads()
    ensures Heads([], [])
  {
  }

  lemma {:induction false} GroupsHead(ss: seq<Stmt>, switchBlock: int, counter: nat, loops: seq<LoopFrame>,
                                      previous: Option<int>)
    ensures Heads(BuiltFromLabel(ss), GroupsStep(CaseGroups(ss), switchBlock, counter, loops, previous).places)
    decreases SizeAll(ss), 3, |ss|
  {
    hide BuildSequence, Heads, BuiltAll;
    if ss == [] {
      NoHeads();
    } else if ss[0].Case? {
      var n := GroupLength(ss[1..]) + 1;
      var group, rest := ss[..n], ss[n..];
      assert ss == group + rest;
      SizeAllAppend(group, rest);
      BuiltAppend(group, rest);
      var f := GroupFrag(group, switchBlock, counter, loops, previous);
      SequenceHeads(group, counter, loops);
      GroupsHead(rest, switchBlock, f.next.counter, loops, Some(f.next.block));
      FromLabelIsAll(rest);
      assert ([group] + CaseGroups(rest))[1..] == CaseGroups(rest);
      GroupsAttached(CaseGroups(rest), switchBlock, f.next.counter, loops, Some(f.next.block));
      var g := GroupsStep(CaseGroups(rest), switchBlock, f.next.counter, loops, Some(f.next.block));
      HeadsApart(BuiltAll(group), f.places, BuiltAll(rest), g.places, f.next.counter);
    } else {
      GroupsHead(ss[1..], switchBlock, counter, loops, previous);
    }
  }

  // ----- The whole graph -----

  /** The first statement of some block. */
  ghost predicate HeadsBlock(g: Cfg, id: NodeId)
  {
    exists b :: b in g.blocks && g.blocks[b] != [] && g.blocks[b][0] == id
  }

  ghost predicate LabelsHead(body: seq<Stmt>, g: Cfg)
  {
    forall s :: s in BuiltAll(body) && s.Label? ==> HeadsBlock(g, s.id)
  }

  lemma {:induction false} FirstPlaced(places: seq<Place>, i: nat)
    requires i < |places| && forall j :: 0 <= j < i ==> places[j].block != places[i].block
    ensures PlacedAt(places, places[i].block) != [] && PlacedAt(places, places[i].block)[0] == places[i].id
  {
    if i > 0 {
      assert forall j :: 0 <= j < i - 1 ==> places[1..][j] == places[j + 1];
      FirstPlaced(places[1..], i - 1);
    }
  }

  /** In every body each label is the first statement of the block that holds it. */
  lemma RawLabelsHead(body: seq<Stmt>)
    ensures LabelsHead(body, RawGraph(body))
  {
    hide RawGraph, Walk, BlocksOf;
    if body != [] {
      var f, bs := BuildSequence(body, 0, []), BuiltAll(body);
      WalkHeads(body, Fresh(0), []);
      WalkRecords(body, Fresh(0), []);
      SequenceConfinedBody(body, f);
      RawGraphBlocks(body);
      forall s | s in bs && s.Label?
        ensures HeadsBlock(RawGraph(body), s.id)
      {
        var i :| 0 <= i < |bs| && bs[i] == s;
        FirstPlaced(f.places, i);
        assert f.places[i] in f.places;
        BlockThere(f, f.places[i].block);
      }
    }
  }

  /** ... and stays so when the graph is pruned. */
  lemma PrunedLabelsHead(body: seq<Stmt>, h: Cfg)
    requires PrunedTo(RawGraph(body), h)
    ensures LabelsHead(body, h)
  {
    hide RawGraph, BuiltAll, PrunedTo;
    RawLabelsHead(body);
    PrunedOnlyEmpties(body, h);
  }
}
