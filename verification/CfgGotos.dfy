/** Where `goto` goes. Labels have function scope, so gotos are wired when the
    whole body is built: each to the last label of its name, wherever that
    stands, or to the exit when the body has none. */
module CfgGotos {
  import opened Collections
  import opened Ast
  import opened Runs
  import opened Paths
  import opened CfgSpec
  import opened CfgWellFormed
  import opened CfgNodes
  import opened CfgContinues
  import opened CfgPrune
  import opened CfgTails

  // ----- What is built, and in which order -----

  /** The statements of a tree that the builder places in blocks, in source
      order. What precedes the first label of a `switch` is dropped, and so is
      the body of a `switch` that is not in braces. */
  function Built(s: Stmt): seq<Stmt>
    decreases Size(s), 0
  {
    match s
    case If(_, t, e) => [s] + BuiltAll(Sequence(t)) + BuiltAll(Sequence(e))
    case Loop(_, _, b) => [s] + BuiltAll(Sequence(b))
    case Switch(_, b) => [s] + (if Braced(b) then BuiltFromLabel(Sequence(b)) else [])
    case Compound(_, ss) => BuiltAll(ss)
    case _ => [s]
  }

  function BuiltAll(ss: seq<Stmt>): seq<Stmt>
    decreases SizeAll(ss), 1
  {
    if ss == [] then [] else Built(ss[0]) + BuiltAll(ss[1..])
  }

  function BuiltFromLabel(ss: seq<Stmt>): seq<Stmt>
    decreases SizeAll(ss), 2
  {
    if ss == [] then [] else if ss[0].Case? then BuiltAll(ss) else BuiltFromLabel(ss[1..])
  }

  lemma {:induction false} BuiltAppend(a: seq<Stmt>, b: seq<Stmt>)
    ensures BuiltAll(a + b) == BuiltAll(a) + BuiltAll(b)
    decreases |a|
  {
    if a == [] {
      assert a + b == b;
    } else {
      assert (a + b)[1..] == a[1..] + b;
      BuiltAppend(a[1..], b);
    }
  }

  /** The labels among statements placed like this. */
  function LabelsAmong(bs: seq<Stmt>, places: seq<Place>): seq<LabelDef>
    requires |bs| == |places|
  {
    if bs == [] then [] else
      var n := |bs| - 1;
      LabelsAmong(bs[..n], places[..n]) + if bs[n].Label? then [LabelDef(bs[n].name, places[n].block)] else []
  }

  function GotosAmong(bs: seq<Stmt>, places: seq<Place>): seq<PendingGoto>
    requires |bs| == |places|
  {
    if bs == [] then [] else
      var n := |bs| - 1;
      GotosAmong(bs[..n], places[..n]) + if bs[n].Goto? then [PendingGoto(places[n].block, bs[n].target)] else []
  }

  lemma {:induction false} AmongAppend(a: seq<Stmt>, p: seq<Place>, b: seq<Stmt>, q: seq<Place>)
    requires |a| == |p| && |b| == |q|
    ensures LabelsAmong(a + b, p + q) == LabelsAmong(a, p) + LabelsAmong(b, q)
    ensures GotosAmong(a + b, p + q) == GotosAmong(a, p) + GotosAmong(b, q)
    decreases |b|
  {
    if b == [] {
      assert a + b == a && p + q == p;
    } else {
      var n := |b| - 1;
      assert (a + b)[..|a + b| - 1] == a + b[..n] && (p + q)[..|a + b| - 1] == p + q[..n];
      AmongAppend(a, p, b[..n], q[..n]);
    }
  }

  /** The fragment places exactly these statements, in this order, and keeps
      their labels and gotos with the blocks they are placed in. */
  ghost predicate Records(f: Frag, bs: seq<Stmt>)
  {
    && |f.places| == |bs|
    && (forall i :: 0 <= i < |bs| ==> f.places[i].id == bs[i].id)
    && f.labels == LabelsAmong(bs, f.places) && f.gotos == GotosAmong(bs, f.places)
  }

  lemma RecordsThen(f: Frag, g: Frag, a: seq<Stmt>, b: seq<Stmt>)
    requires Records(f, a) && Records(g, b)
    ensures Records(f.Then(g), a + b)
  {
    hide LabelsAmong, GotosAmong;
    AmongAppend(a, f.places, b, g.places);
  }

  /** Edges and the position play no part. */
  lemma RecordsAs(f: Frag, g: Frag, bs: seq<Stmt>)
    requires Records(f, bs) && f.places == g.places && f.labels == g.labels && f.gotos == g.gotos
    ensures Records(g, bs)
  {
  }

  lemma PutRecords(id: NodeId, p: Pos, s: Stmt)
    requires s.id == id && !s.Label? && !s.Goto?
    ensures Records(Put(id, p), [s])
  {
    assert [s][..0] == [] && Put(id, p).places[..0] == [];
  }

  lemma {:induction false} WalkRecords(ss: seq<Stmt>, p: Pos, loops: seq<LoopFrame>)
    ensures Records(Walk(ss, p, loops), BuiltAll(ss))
    decreases SizeAll(ss), 1
  {
    if ss != [] {
      hide Step, Built, Records;
      var f := Step(ss[0], p, loops);
      StepRecords(ss[0], p, loops);
      WalkRecords(ss[1..], f.next, loops);
      RecordsThen(f, Walk(ss[1..], f.next, loops), Built(ss[0]), BuiltAll(ss[1..]));
    }
  }

  lemma {:induction false} SequenceRecords(ss: seq<Stmt>, counter: nat, loops: seq<LoopFrame>)
    ensures Records(BuildSequence(ss, counter, loops), BuiltAll(ss))
    decreases SizeAll(ss), 2
  {
    hide Walk, Records;
    WalkRecords(ss, Fresh(counter), loops);
  }

  lemma {:induction false} StepRecords(s: Stmt, p: Pos, loops: seq<LoopFrame>)
    ensures Records(Step(s, p, loops), Built(s))
    decreases Size(s), 0
  {
    hide IfStep, LoopStep, SwitchStep, BuildSequence;
    match s
    case Compound(_, ss) =>
      SequenceRecords(ss, p.counter, loops);
      RecordsAs(BuildSequence(ss, p.counter, loops), CompoundStep(s, p, loops), BuiltAll(ss));
    case If(_, _, _) => IfRecords(s, p, loops);
    case Loop(_, _, _) => LoopRecords(s, p, loops);
    case Switch(_, _) => SwitchRecords(s, p, loops);
    case _ => SimpleRecords(s, p, loops);
  }

  lemma SimpleRecords(s: Stmt, p: Pos, loops: seq<LoopFrame>)
    requires !s.Compound? && !s.If? && !s.Loop? && !s.Switch?
    ensures Records(Step(s, p, loops), [s])
  {
    var f := Step(s, p, loops);
    assert f.places == [Place(f.places[0].block, s.id)];
    assert [s][..0] == [] && f.places[..0] == [];
    assert LabelsAmong([s], f.places) == if s.Label? then [LabelDef(s.name, f.places[0].block)] else [];
    assert GotosAmong([s], f.places) == if s.Goto? then [PendingGoto(f.places[0].block, s.target)] else [];
  }

  lemma {:induction false} BodyRecords(b: Option<Stmt>, hub: int, meet: int, counter: nat, kind: EdgeKind, loops: seq<LoopFrame>)
    ensures Records(BranchStep(b, hub, meet, counter, kind, loops), BuiltAll(Sequence(b)))
    ensures Records(LoopBodyStep(b, hub, counter, kind, loops), BuiltAll(Sequence(b)))
    decreases OptionSize(b), 3
  {
    if b.Some? {
      hide BuildSequence, Records, BuiltAll;
      var f := BuildSequence(Sequence(b), counter, loops);
      SequenceRecords(Sequence(b), counter, loops);
      RecordsAs(f, BranchStep(b, hub, meet, counter, kind, loops), BuiltAll(Sequence(b)));
      RecordsAs(f, LoopBodyStep(b, hub, counter, kind, loops), BuiltAll(Sequence(b)));
    }
  }

  lemma {:induction false} IfRecords(s: Stmt, p: Pos, loops: seq<LoopFrame>)
    requires s.If?
    ensures Records(IfStep(s, p, loops), Built(s))
    decreases OptionSize(s.thenBranch) + OptionSize(s.elseBranch), 4
  {
    hide BranchStep, Records, BuiltAll, Put;
    var join := p.counter + 1;
    var f := BranchStep(s.thenBranch, p.block, join, join, TrueBranch, loops);
    var g := BranchStep(s.elseBranch, p.block, join, f.next.counter, FalseBranch, loops);
    PutRecords(s.id, p, s);
    BodyRecords(s.thenBranch, p.block, join, join, TrueBranch, loops);
    BodyRecords(s.elseBranch, p.block, join, f.next.counter, FalseBranch, loops);
    RecordsThen(Put(s.id, p), f, [s], BuiltAll(Sequence(s.thenBranch)));
    RecordsThen(Put(s.id, p).Then(f), g, [s] + BuiltAll(Sequence(s.thenBranch)), BuiltAll(Sequence(s.elseBranch)));
    RecordsAs(Put(s.id, p).Then(f).Then(g), IfStep(s, p, loops), Built(s));
  }

  lemma {:induction false} LoopRecords(s: Stmt, p: Pos, loops: seq<LoopFrame>)
    requires s.Loop?
    ensures Records(LoopStep(s, p, loops), Built(s))
    decreases OptionSize(s.body), 4
  {
    hide LoopBodyStep, Records, BuiltAll;
    var header, after := p.counter + 1, p.counter + 2;
    var inner := loops + [LoopFrame(header, after)];
    var kind := if s.kind.Do? then Fallthrough else TrueBranch;
    var q := Pos(header, 0, header);
    var f := LoopBodyStep(s.body, header, after, kind, inner);
    PutRecords(s.id, q, s);
    BodyRecords(s.body, header, header, after, kind, inner);
    RecordsThen(Put(s.id, q), f, [s], BuiltAll(Sequence(s.body)));
    RecordsAs(Put(s.id, q).Then(f), LoopStep(s, p, loops), Built(s));
  }

  lemma {:induction false} SwitchRecords(s: Stmt, p: Pos, loops: seq<LoopFrame>)
    requires s.Switch?
    ensures Records(SwitchStep(s, p, loops), Built(s))
    decreases OptionSize(s.compound), 3
  {
    hide GroupsStep, CaseGroups, SwitchExits, Records, BuiltAll, Put;
    var after := p.counter + 1;
    PutRecords(s.id, p, s);
    if Braced(s.compound) {
      var ss, inner := Sequence(s.compound), loops + [LoopFrame(p.block, after)];
      assert SizeAll(ss) < Size(s.compound.value);
      var f := GroupsStep(CaseGroups(ss), p.block, after, inner, None);
      GroupsRecord(ss, p.block, after, inner, None);
      RecordsThen(Put(s.id, p), f, [s], BuiltFromLabel(ss));
      RecordsAs(Put(s.id, p).Then(f), SwitchStep(s, p, loops), Built(s));
    } else {
      var f := Nothing(Pos(after, 0, after));
      NothingRecords(Pos(after, 0, after));
      RecordsThen(Put(s.id, p), f, [s], []);
      assert [s] + [] == [s];
      RecordsAs(Put(s.id, p).Then(f), SwitchStep(s, p, loops), Built(s));
    }
  }

  lemma NothingRecords(p: Pos)
    ensures Records(Nothing(p), [])
  {
  }

  lemma {:induction false} GroupsRecord(ss: seq<Stmt>, switchBlock: int, counter: nat, loops: seq<LoopFrame>,
                                        previous: Option<int>)
    ensures Records(GroupsStep(CaseGroups(ss), switchBlock, counter, loops, previous), BuiltFromLabel(ss))
    decreases SizeAll(ss), 3, |ss|
  {
    hide BuildSequence, Records, BuiltAll;
    if ss == [] {
      NothingRecords(Pos(if previous.Some? then previous.value else switchBlock, 0, counter));
    } else if ss[0].Case? {
      var n := GroupLength(ss[1..]) + 1;
      var group, rest := ss[..n], ss[n..];
      assert ss == group + rest;
      SizeAllAppend(group, rest);
      BuiltAppend(group, rest);
      var f := GroupFrag(group, switchBlock, counter, loops, previous);
      SequenceRecords(group, counter, loops);
      RecordsAs(BuildSequence(group, counter, loops), f, BuiltAll(group));
      GroupsRecord(rest, switchBlock, f.next.counter, loops, Some(f.next.block));
      FromLabelIsAll(rest);
      assert ([group] + CaseGroups(rest))[1..] == CaseGroups(rest);
      var g := GroupsStep(CaseGroups(rest), switchBlock, f.next.counter, loops, Some(f.next.block));
      RecordsThen(f, g, BuiltAll(group), BuiltAll(rest));
    } else {
      GroupsRecord(ss[1..], switchBlock, counter, loops, previous);
    }
  }

  lemma FromLabelIsAll(ss: seq<Stmt>)
    requires ss == [] || ss[0].Case?
    ensures BuiltFromLabel(ss) == BuiltAll(ss)
  {
  }

  // ----- Nothing else leaves the block of a goto -----

  /** No edge leaves the block of a pending goto, and no two share a block. */
  ghost predicate Sealed(f: Frag)
  {
    && (forall g, e :: g in f.gotos && e in f.edges ==> e.source != g.block)
    && (forall i, j :: 0 <= i < j < |f.gotos| ==> f.gotos[i].block != f.gotos[j].block)
  }

  lemma SealedThen(f: Frag, g: Frag)
    requires Sealed(f) && Sealed(g)
    requires forall x, e :: x in f.gotos && e in g.edges ==> e.source != x.block
    requires forall x, e :: x in g.gotos && e in f.edges ==> e.source != x.block
    requires forall x, y :: x in f.gotos && y in g.gotos ==> x.block != y.block
    ensures Sealed(f.Then(g))
  {
    var h := f.Then(g);
    forall i, j | 0 <= i < j < |h.gotos|
      ensures h.gotos[i].block != h.gotos[j].block
    {
      if i < |f.gotos| <= j {
        assert f.gotos[i] in f.gotos && g.gotos[j - |f.gotos|] in g.gotos;
      }
    }
  }

  lemma SealedWire(f: Frag, more: seq<Edge>)
    requires Sealed(f) && forall g, e :: g in f.gotos && e in more ==> e.source != g.block
    ensures Sealed(f.Wire(more))
  {
  }

  lemma {:induction false} WalkSealed(ss: seq<Stmt>, p: Pos, loops: seq<LoopFrame>)
    requires Placed(p)
    ensures Sealed(Walk(ss, p, loops))
    decreases SizeAll(ss), 1
  {
    if ss != [] {
      hide Step, Sealed;
      var f := Step(ss[0], p, loops);
      StepConfined(ss[0], p, loops);
      StepSealed(ss[0], p, loops);
      WalkConfined(ss[1..], f.next, loops);
      WalkSealed(ss[1..], f.next, loops);
      SealedThen(f, Walk(ss[1..], f.next, loops));
    } else {
      NothingSealed(p);
    }
  }

  lemma NothingSealed(p: Pos)
    ensures Sealed(Nothing(p))
  {
  }

  lemma {:induction false} SequenceSealed(ss: seq<Stmt>, counter: nat, loops: seq<LoopFrame>)
    ensures Sealed(BuildSequence(ss, counter, loops))
    decreases SizeAll(ss), 2
  {
    hide Walk, Sealed;
    WalkSealed(ss, Fresh(counter), loops);
  }

  lemma {:induction false} StepSealed(s: Stmt, p: Pos, loops: seq<LoopFrame>)
    requires Placed(p)
    ensures Sealed(Step(s, p, loops))
    decreases Size(s), 0
  {
    match s
    case Compound(_, ss) =>
      hide BuildSequence, Sealed;
      var f := BuildSequence(ss, p.counter, loops);
      SequenceSealed(ss, p.counter, loops);
      SequenceConfined(ss, p.counter, loops);
      SealedWire(f, [Edge(p.block, p.counter + 1, Fallthrough)]);
      SealedAs(f.Wire([Edge(p.block, p.counter + 1, Fallthrough)]), CompoundStep(s, p, loops));
    case If(_, _, _) => IfSealed(s, p, loops);
    case Loop(_, _, _) => LoopSealed(s, p, loops);
    case Switch(_, _) => SwitchSealed(s, p, loops);
    case _ =>
  }

  lemma SealedAs(f: Frag, g: Frag)
    requires Sealed(f) && f.edges == g.edges && f.gotos == g.gotos
    ensures Sealed(g)
  {
  }

  lemma {:induction false} BodySealed(b: Option<Stmt>, hub: int, meet: int, counter: nat, kind: EdgeKind, loops: seq<LoopFrame>)
    requires hub <= counter
    ensures Sealed(BranchStep(b, hub, meet, counter, kind, loops))
    ensures Sealed(LoopBodyStep(b, hub, counter, kind, loops))
    decreases OptionSize(b), 3
  {
    if b.Some? {
      hide BuildSequence, Sealed;
      var f := BuildSequence(Sequence(b), counter, loops);
      SequenceSealed(Sequence(b), counter, loops);
      SequenceConfined(Sequence(b), counter, loops);
      SealedWire(f, [Edge(hub, counter + 1, kind), Edge(f.next.block, meet, Fallthrough)]);
      SealedWire(f, [Edge(hub, counter + 1, kind), Edge(f.next.block, hub, LoopBack)]);
    }
  }

  lemma {:induction false} IfSealed(s: Stmt, p: Pos, loops: seq<LoopFrame>)
    requires s.If? && Placed(p)
    ensures Sealed(IfStep(s, p, loops))
    decreases OptionSize(s.thenBranch) + OptionSize(s.elseBranch), 4
  {
    hide BranchStep, Sealed;
    var join := p.counter + 1;
    var f := BranchStep(s.thenBranch, p.block, join, join, TrueBranch, loops);
    var g := BranchStep(s.elseBranch, p.block, join, f.next.counter, FalseBranch, loops);
    BranchAttached(s.thenBranch, p.block, join, join, TrueBranch, loops);
    BranchAttached(s.elseBranch, p.block, join, f.next.counter, FalseBranch, loops);
    BodySealed(s.thenBranch, p.block, join, join, TrueBranch, loops);
    BodySealed(s.elseBranch, p.block, join, f.next.counter, FalseBranch, loops);
    SealedThen(f, g);
    assert [] + f.edges == f.edges && [] + f.gotos == f.gotos;
    SealedAs(f.Then(g), IfStep(s, p, loops));
  }

  lemma {:induction false} LoopSealed(s: Stmt, p: Pos, loops: seq<LoopFrame>)
    requires s.Loop? && Placed(p)
    ensures Sealed(LoopStep(s, p, loops))
    decreases OptionSize(s.body), 4
  {
    hide LoopBodyStep, Sealed;
    var header, after := p.counter + 1, p.counter + 2;
    var inner := loops + [LoopFrame(header, after)];
    var kind := if s.kind.Do? then Fallthrough else TrueBranch;
    var f := LoopBodyStep(s.body, header, after, kind, inner);
    LoopBodyAttached(s.body, header, after, kind, inner);
    BodySealed(s.body, header, header, after, kind, inner);
    LoopShapeSealed(s.id, p, f);
  }

  lemma LoopShapeSealed(id: NodeId, p: Pos, f: Frag)
    requires Placed(p) && Sealed(f) && forall g :: g in f.gotos ==> p.counter + 2 < g.block
    ensures Sealed(LoopShape(id, p, f))
  {
    assert LoopShape(id, p, f).gotos == f.gotos;
  }

  lemma {:induction false} SwitchSealed(s: Stmt, p: Pos, loops: seq<LoopFrame>)
    requires s.Switch? && Placed(p)
    ensures Sealed(SwitchStep(s, p, loops))
    decreases OptionSize(s.compound), 5
  {
    hide GroupsStep, CaseGroups, SwitchExits, Sealed, SwitchShape;
    var after := p.counter + 1;
    if Braced(s.compound) {
      var groups := CaseGroups(s.compound.value.children);
      assert SizeGroups(groups) < Size(s.compound.value);
      var inner := loops + [LoopFrame(p.block, after)];
      var f := GroupsStep(groups, p.block, after, inner, None);
      GroupsSealed(groups, p.block, after, inner, None);
      ExitsLeave(groups, p.block, after, f.next.block);
      SwitchShapeSealed(s.id, p, f, SwitchExits(p.block, after, groups, f.next.block));
    } else {
      NothingSealed(Pos(after, 0, after));
      SwitchShapeSealed(s.id, p, Nothing(Pos(after, 0, after)), [Edge(p.block, after, Fallthrough)]);
    }
  }

  lemma SwitchShapeSealed(id: NodeId, p: Pos, f: Frag, exits: seq<Edge>)
    requires Sealed(f) && forall g, e :: g in f.gotos && e in exits ==> e.source != g.block
    ensures Sealed(SwitchShape(id, p, f, exits))
  {
    assert SwitchShape(id, p, f, exits).gotos == f.gotos && SwitchShape(id, p, f, exits).edges == f.edges + exits;
  }

  lemma ExitsLeave(groups: seq<seq<Stmt>>, switchBlock: int, after: int, tail: int)
    requires forall g: seq<Stmt> :: g in groups ==> |g| > 0 && g[0].Case?
    ensures forall e :: e in SwitchExits(switchBlock, after, groups, tail) ==> e.source == switchBlock || e.source == tail
  {
    hide HasDefault;
  }

  /** The gotos of a row of groups sit in blocks of their own, away from its end. */
  lemma {:induction false} GroupsSealed(groups: seq<seq<Stmt>>, switchBlock: int, counter: nat, loops: seq<LoopFrame>,
                                        previous: Option<int>)
    requires forall g: seq<Stmt> :: g in groups ==> |g| > 0 && g[0].Case?
    requires switchBlock <= counter && (previous.Some? ==> previous.value <= counter)
    ensures var f := GroupsStep(groups, switchBlock, counter, loops, previous);
      Sealed(f) && forall g :: g in f.gotos ==> counter < g.block && g.block != f.next.block
    decreases SizeGroups(groups), 4, |groups|
  {
    if groups != [] {
      hide Walk, GroupFrag, Sealed, Attached;
      var f := GroupFrag(groups[0], switchBlock, counter, loops, previous);
      GroupSealed(groups[0], switchBlock, counter, loops, previous);
      var g := GroupsStep(groups[1..], switchBlock, f.next.counter, loops, Some(f.next.block));
      GroupsSealed(groups[1..], switchBlock, f.next.counter, loops, Some(f.next.block));
      GroupsMeet(groups, f, g, switchBlock, previous, counter, loops);
      GroupsApart(f, g, switchBlock, previous, counter, loops);
      SealedThen(f, g);
    }
  }

  lemma GroupsApart(f: Frag, g: Frag, switchBlock: int, previous: Option<int>, counter: nat, loops: seq<LoopFrame>)
    requires GroupMet(f, g, switchBlock, previous, counter, loops) && counter < f.next.block <= f.next.counter
    requires switchBlock <= counter && (previous.Some? ==> previous.value <= counter)
    requires forall x :: x in f.gotos ==> counter < x.block <= f.next.counter && x.block != f.next.block
    requires forall x :: x in g.gotos ==> f.next.counter < x.block && x.block != g.next.block
    ensures forall x, e :: x in f.gotos && e in g.edges ==> e.source != x.block
    ensures forall x, e :: x in g.gotos && e in f.edges ==> e.source != x.block
    ensures forall x, y :: x in f.gotos && y in g.gotos ==> x.block != y.block
    ensures forall x :: x in f.gotos ==> x.block != g.next.block
  {
  }

  lemma {:induction false} GroupSealed(group: seq<Stmt>, switchBlock: int, counter: nat, loops: seq<LoopFrame>,
                                       previous: Option<int>)
    requires |group| > 0 && group[0].Case? && switchBlock <= counter && (previous.Some? ==> previous.value <= counter)
    ensures var f := GroupFrag(group, switchBlock, counter, loops, previous);
      && Sealed(f) && counter < f.next.block <= f.next.counter
      && forall g :: g in f.gotos ==> counter < g.block <= f.next.counter && g.block != f.next.block
    decreases SizeAll(group), 3
  {
    hide BuildSequence, Sealed;
    var f := BuildSequence(group, counter, loops);
    SequenceSealed(group, counter, loops);
    SequenceConfined(group, counter, loops);
    SealedWire(f, [Edge(switchBlock, counter + 1, if group[0].isDefault then DefaultEdge else CaseEdge)]
      + if previous.Some? then [Edge(previous.value, counter + 1, SwitchFallthrough)] else []);
  }

  // ----- The whole graph -----

  predicate IsLabel(s: Stmt, name: string)
  {
    s.Label? && s.name == name
  }

  /** The last label of that name in source order. */
  ghost predicate LastLabel(bs: seq<Stmt>, name: string, k: int)
  {
    && 0 <= k < |bs| && IsLabel(bs[k], name)
    && forall j :: k < j < |bs| ==> !IsLabel(bs[j], name)
  }

  /** Where a `goto` must lead: the block that holds the last label of its name,
      or the exit when the body has no such label. */
  ghost predicate Destination(body: seq<Stmt>, g: Cfg, name: string, y: int)
  {
    || (exists k :: LastLabel(BuiltAll(body), name, k) && y in g.blocks && BuiltAll(body)[k].id in g.blocks[y])
    || (y == EXIT && forall s :: s in BuiltAll(body) ==> !IsLabel(s, name))
  }

  /** The statement sits in a block that is left for its destination alone. */
  ghost predicate Jumps(body: seq<Stmt>, g: Cfg, s: Stmt)
    requires s.Goto?
  {
    exists b :: b in g.blocks && s.id in g.blocks[b] && forall y :: (b, y) in g.Arcs() <==> Destination(body, g, s.target, y)
  }

  ghost predicate GotosJump(body: seq<Stmt>, g: Cfg)
  {
    forall s :: s in BuiltAll(body) && s.Goto? ==> Jumps(body, g, s)
  }

  /** The table of labels binds a name to the block of its last label. */
  lemma {:induction false} TargetOfLast(bs: seq<Stmt>, places: seq<Place>, name: string)
    requires |bs| == |places|
    ensures var t := LabelTarget(LabelsAmong(bs, places), name);
      && (t.None? ==> forall s :: s in bs ==> !IsLabel(s, name))
      && (t.Some? ==> exists k :: LastLabel(bs, name, k) && t.value == places[k].block)
  {
    if bs != [] {
      var n := |bs| - 1;
      TargetOfLast(bs[..n], places[..n], name);
      var front := LabelsAmong(bs[..n], places[..n]);
      assert bs == bs[..n] + [bs[n]];
      if bs[n].Label? {
        var all := front + [LabelDef(bs[n].name, places[n].block)];
        assert all == LabelsAmong(bs, places) && all[..|all| - 1] == front;
        if bs[n].name == name {
          assert LastLabel(bs, name, n);
        }
      } else {
        assert front + [] == front;
      }
      var t := LabelTarget(front, name);
      if t.Some? && !IsLabel(bs[n], name) {
        var k :| LastLabel(bs[..n], name, k) && t.value == places[..n][k].block;
        assert LastLabel(bs, name, k);
      }
    }
  }

  lemma {:induction false} GotoAmong(bs: seq<Stmt>, places: seq<Place>, i: nat)
    requires |bs| == |places| && i < |bs| && bs[i].Goto?
    ensures PendingGoto(places[i].block, bs[i].target) in GotosAmong(bs, places)
  {
    var n := |bs| - 1;
    if i < n {
      GotoAmong(bs[..n], places[..n], i);
    }
  }

  /** The goto edges, one for each pending goto. */
  lemma {:induction false} GotoEdgeOf(gotos: seq<PendingGoto>, labels: seq<LabelDef>, e: Edge)
    ensures e in GotoEdges(gotos, labels) <==> exists i :: 0 <= i < |gotos| && e == EdgeOfGoto(gotos[i], labels)
  {
    if gotos != [] {
      GotoEdgeOf(gotos[1..], labels, e);
      if i :| 0 <= i < |gotos| && e == EdgeOfGoto(gotos[i], labels) {
        assert i > 0 ==> gotos[i] == gotos[1..][i - 1];
      }
      if i :| 0 <= i < |gotos[1..]| && e == EdgeOfGoto(gotos[1..][i], labels) {
        assert gotos[i + 1] == gotos[1..][i];
      }
      assert EdgeOfGoto(gotos[0], labels) in GotoEdges(gotos, labels);
    }
  }

  function EdgeOfGoto(g: PendingGoto, labels: seq<LabelDef>): Edge
  {
    var t := LabelTarget(labels, g.name);
    Edge(g.block, if t.Some? then t.value else EXIT, GotoEdge)
  }

  /** The one arc out of the block of a pending goto. */
  lemma GotoArc(body: seq<Stmt>, f: Frag, g: PendingGoto, y: int)
    requires body != [] && f == BuildSequence(body, 0, []) && g in f.gotos
    ensures (g.block, y) in RawGraph(body).Arcs() <==> y == EdgeOfGoto(g, f.labels).target
  {
    hide RawGraph, Walk, GotoEdges, LabelTarget;
    var edges := RawGraph(body).edges;
    SequenceConfinedBody(body, f);
    WalkSealed(body, Fresh(0), []);
    ArcOfEdge(edges, g.block, y);
    var i :| 0 <= i < |f.gotos| && f.gotos[i] == g;
    forall e | e in edges && e.source == g.block
      ensures e == EdgeOfGoto(g, f.labels)
    {
      RawEdges(body, f, e);
      GotoEdgeOf(f.gotos, f.labels, e);
      var j :| 0 <= j < |f.gotos| && e == EdgeOfGoto(f.gotos[j], f.labels);
      assert j == i;
    }
    RawEdges(body, f, EdgeOfGoto(g, f.labels));
    GotoEdgeOf(f.gotos, f.labels, EdgeOfGoto(g, f.labels));
  }

  /** A placed statement is in its block, and in no other when nodes differ. */
  lemma PlaceInGraph(body: seq<Stmt>, f: Frag, i: nat, y: int)
    requires body != [] && f == BuildSequence(body, 0, []) && i < |f.places| && NoRepeats(NodesOf(body))
    ensures var g := RawGraph(body);
      y in g.blocks && f.places[i].id in g.blocks[y] <==> y == f.places[i].block
  {
    hide RawGraph, Walk, BlocksOf;
    var g, a := RawGraph(body), f.places[i];
    SequenceConfinedBody(body, f);
    RawGraphBlocks(body);
    assert a in f.places;
    PlacedIn(f.places, a.block, a.id);
    BlockThere(f, a.block);
    RawGraphStatementsOnce(body);
    if y in g.blocks && a.id in g.blocks[y] {
      var j :| 0 <= j < |g.blocks[y]| && g.blocks[y][j] == a.id;
      var k :| 0 <= k < |g.blocks[a.block]| && g.blocks[a.block][k] == a.id;
    }
  }

  /** In every body with distinct nodes, each `goto` sits in a block that one arc
      leaves, to the block of the last label of its name, or to the exit when
      there is no such label. */
  lemma GotoGoes(body: seq<Stmt>, s: Stmt)
    requires NoRepeats(NodesOf(body)) && s in BuiltAll(body) && s.Goto?
    ensures Jumps(body, RawGraph(body), s)
  {
    hide RawGraph, Walk, LabelsAmong, GotosAmong, LabelTarget, NodesOf, NoRepeats, LastLabel;
    var g, bs := RawGraph(body), BuiltAll(body);
    var f := BuildSequence(body, 0, []);
    WalkRecords(body, Fresh(0), []);
    var i :| 0 <= i < |bs| && bs[i] == s;
    GotoAmong(bs, f.places, i);
    var b, jump := f.places[i].block, PendingGoto(f.places[i].block, s.target);
    TargetOfLast(bs, f.places, s.target);
    PlaceInGraph(body, f, i, b);
    forall y
      ensures (b, y) in g.Arcs() <==> Destination(body, g, s.target, y)
    {
      GotoArc(body, f, jump, y);
      LastIsOne(body, f, s.target, y);
    }
  }

  lemma LastIsOne(body: seq<Stmt>, f: Frag, name: string, y: int)
    requires body != [] && f == BuildSequence(body, 0, []) && NoRepeats(NodesOf(body)) && Records(f, BuiltAll(body))
    ensures var t := LabelTarget(f.labels, name);
      Destination(body, RawGraph(body), name, y) <==> y == if t.Some? then t.value else EXIT
  {
    hide RawGraph, Walk, LabelsAmong, GotosAmong, LabelTarget, NodesOf, NoRepeats, BuiltAll;
    var bs := BuiltAll(body);
    TargetOfLast(bs, f.places, name);
    if k :| LastLabel(bs, name, k) {
      forall j | LastLabel(bs, name, j)
        ensures j == k
      {
      }
      assert bs[k] in bs;
      PlaceInGraph(body, f, k, y);
    }
  }

  // ----- The graph that is returned -----

  /** Pruning touches neither the block of a `goto` nor the one it leads to. */
  lemma PrunedGotoGoes(body: seq<Stmt>, h: Cfg, s: Stmt)
    requires NoRepeats(NodesOf(body)) && s in BuiltAll(body) && s.Goto? && PrunedTo(RawGraph(body), h)
    ensures Jumps(body, h, s)
  {
    hide RawGraph, NodesOf, NoRepeats, BuiltAll, LastLabel;
    var g := RawGraph(body);
    var gs :| PruneSteps(gs) && gs[0] == g && Last(gs) == h;
    GotoGoes(body, s);
    PrunedBlocks(gs);
    var b :| b in g.blocks && s.id in g.blocks[b] && forall y :: (b, y) in g.Arcs() <==> Destination(body, g, s.target, y);
    RawGraphWellFormed(body);
    forall y
      ensures Destination(body, g, s.target, y) <==> Destination(body, h, s.target, y)
    {
      assert y in g.blocks && g.blocks[y] != [] ==> y in h.blocks && h.blocks[y] == g.blocks[y];
    }
    forall y
      ensures (b, y) in h.Arcs() <==> (b, y) in g.Arcs()
    {
      PrunedKeepsArcs(gs, b, y);
    }
  }

  lemma PrunedGotosJump(body: seq<Stmt>, h: Cfg)
    requires NoRepeats(NodesOf(body)) && PrunedTo(RawGraph(body), h)
    ensures GotosJump(body, h)
  {
    hide RawGraph, NodesOf, NoRepeats, BuiltAll, Jumps, PrunedTo;
    forall s | s in BuiltAll(body) && s.Goto?
      ensures Jumps(body, h, s)
    {
      PrunedGotoGoes(body, h, s);
    }
  }

  /** `L: poll(); goto L;`: the goto leads back to the block it ends. */
  lemma BackwardGoto(body: seq<Stmt>, h: Cfg, y: int)
    requires body == [Label(1, "L"), Plain(2), Goto(3, "L")] && PrunedTo(RawGraph(body), h)
    ensures 1 in h.blocks && h.blocks[1] == [1, 2, 3] && ((1, y) in h.Arcs() <==> y == 1)
  {
    hide RawGraph, NodesOf, PrunedTo, BuiltAll;
    BackwardGotoTree(body);
    BackwardGotoBlock(body);
    PrunedGotoGoes(body, h, body[2]);
    PrunedOnlyEmpties(body, h);
    RawGraphStatementsOnce(body);
    assert LastLabel(BuiltAll(body), "L", 0);
    var b :| b in h.blocks && 3 in h.blocks[b] && forall z :: (b, z) in h.Arcs() <==> Destination(body, h, "L", z);
    var g := RawGraph(body);
    assert g.blocks[1][2] == 3 && g.blocks[1][0] == 1;
    assert b == 1;
    if Destination(body, h, "L", y) {
      assert 1 in g.blocks[y];
      var j :| 0 <= j < |g.blocks[y]| && g.blocks[y][j] == 1;
    }
  }

  lemma PrunedOnlyEmpties(body: seq<Stmt>, h: Cfg)
    requires PrunedTo(RawGraph(body), h)
    ensures forall b :: b in h.blocks ==> b in RawGraph(body).blocks && h.blocks[b] == RawGraph(body).blocks[b]
    ensures forall b :: b in RawGraph(body).blocks && RawGraph(body).blocks[b] != [] ==> b in h.blocks
  {
    hide RawGraph;
    var gs :| PruneSteps(gs) && gs[0] == RawGraph(body) && Last(gs) == h;
    PrunedBlocks(gs);
  }

  lemma BackwardGotoTree(body: seq<Stmt>)
    requires body == [Label(1, "L"), Plain(2), Goto(3, "L")]
    ensures NodesOf(body) == [1, 2, 3] && BuiltAll(body) == body
  {
    var rest := body[1..];
    assert rest == [Plain(2), Goto(3, "L")] && rest[1..] == [Goto(3, "L")] && rest[1..][1..] == [];
    assert NodesOf(rest[1..]) == [3] && BuiltAll(rest[1..]) == [Goto(3, "L")];
    assert NodesOf(rest) == [2, 3] && BuiltAll(rest) == rest;
  }

  lemma BackwardGotoBlock(body: seq<Stmt>)
    requires body == [Label(1, "L"), Plain(2), Goto(3, "L")]
    ensures 1 in RawGraph(body).blocks && RawGraph(body).blocks[1] == [1, 2, 3]
  {
    hide RawGraph, Walk, PlacedAt, BlocksOf;
    BackwardGotoPlaces(body);
    RawGraphBlocks(body);
    BlockThere(BuildSequence(body, 0, []), 1);
  }

  lemma BackwardGotoPlaces(body: seq<Stmt>)
    requires body == [Label(1, "L"), Plain(2), Goto(3, "L")]
    ensures var f := BuildSequence(body, 0, []); f.next.counter == 2 && PlacedAt(f.places, 1) == [1, 2, 3]
  {
    var rest := body[1..];
    assert rest == [Plain(2), Goto(3, "L")] && rest[1..] == [Goto(3, "L")] && rest[1..][1..] == [];
    var a, b, c := Step(body[0], Fresh(0), []), Step(rest[0], Pos(1, 1, 1), []), Step(rest[1], Pos(1, 2, 1), []);
    assert Walk(rest[1..], Pos(1, 2, 1), []) == c.Then(Nothing(c.next));
    assert Walk(rest, Pos(1, 1, 1), []) == b.Then(c.Then(Nothing(c.next)));
    assert Walk(body, Fresh(0), []) == a.Then(Walk(rest, Pos(1, 1, 1), []));
    var places := BuildSequence(body, 0, []).places;
    assert places == [Place(1, 1), Place(1, 2), Place(1, 3)];
    assert places[1..] == [Place(1, 2), Place(1, 3)] && places[1..][1..] == [Place(1, 3)];
    assert PlacedAt(places[1..][1..], 1) == [3];
  }
}
