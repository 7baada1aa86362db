/** Which way each edge of a branch leads. The kind of an edge says what was
    decided, and the statement first met behind it is the one that C executes
    then: the true edge of an `if` leads to its then part, the false edge to its
    else part or past it, and likewise for loops and the labels of a `switch`. */
module CfgBranches {
  import opened Collections
  import opened Ast
  import opened Runs
  import opened SwitchGroups
  import opened Paths
  import opened CfgSpec
  import opened CfgWellFormed
  import opened CfgContinues
  import opened CfgWiring

  // ----- What a tree says -----

  /** At node `at`, deciding for an edge of that kind leads first to node `first`. */
  datatype Choice = Choice(at: NodeId, kind: EdgeKind, first: NodeId)

  /** The node that a list starts with. */
  function FirstOf(ss: seq<Stmt>): Option<NodeId>
    decreases SizeAll(ss)
  {
    if ss == [] then None
    else if ss[0].Compound? then assert SizeAll(ss[0].children) < Size(ss[0]); FirstOf(ss[0].children)
    else Some(ss[0].id)
  }

  /** What is met first in a branch, or behind it when it is missing or empty. */
  function FirstIn(b: Option<Stmt>, next: Option<NodeId>): Option<NodeId>
  {
    if Sequence(b) == [] then next else FirstOf(Sequence(b))
  }

  function Pick(at: NodeId, kind: EdgeKind, first: Option<NodeId>): set<Choice>
  {
    if first.None? then {} else {Choice(at, kind, first.value)}
  }

  /** The choices in a statement list. */
  ghost function ChoicesAll(ss: seq<Stmt>): set<Choice>
    decreases SizeAll(ss), 1
  {
    if ss == [] then {} else ChoicesOf(ss[0], FirstOf(ss[1..])) + ChoicesAll(ss[1..])
  }

  /** The choices in a statement; `next` is what follows it in its list. */
  ghost function ChoicesOf(s: Stmt, next: Option<NodeId>): set<Choice>
    decreases Size(s), 0
  {
    match s
    case If(id, th, el) =>
      Pick(id, TrueBranch, FirstIn(th, next)) + Pick(id, FalseBranch, FirstIn(el, next))
      + ChoicesAll(Sequence(th)) + ChoicesAll(Sequence(el))
    case Loop(id, kind, b) =>
      (if b.None? then {} else Pick(id, if kind.Do? then Fallthrough else TrueBranch, FirstIn(b, Some(id))))
      + Pick(id, FalseBranch, next) + ChoicesAll(Sequence(b))
    case Switch(id, b) =>
      if !Braced(b) then Pick(id, Fallthrough, next)
      else (if HasDefaultLabel(Sequence(b)) then {} else Pick(id, NoMatch, next)) + CaseChoices(id, CaseGroups(Sequence(b)))
    case Compound(_, ss) => ChoicesAll(ss)
    case _ => {}
  }

  ghost function CaseChoices(at: NodeId, groups: seq<seq<Stmt>>): set<Choice>
    requires forall g: seq<Stmt> :: g in groups ==> |g| > 0 && g[0].Case?
    decreases SizeGroups(groups), 2, |groups|
  {
    if groups == [] then {}
    else {Choice(at, if groups[0][0].isDefault then DefaultEdge else CaseEdge, groups[0][0].id)}
         + ChoicesAll(groups[0]) + CaseChoices(at, groups[1..])
  }

  // ----- What a fragment does -----

  /** The walk passes empty blocks until it comes to node `x`. */
  ghost predicate Meets(edges: seq<Edge>, places: seq<Place>, w: seq<int>, x: NodeId)
  {
    && IsWalk(ArcsOf(edges), w)
    && (forall i :: 0 <= i < |w| - 1 ==> PlacedAt(places, w[i]) == [])
    && PlacedAt(places, Last(w)) != [] && PlacedAt(places, Last(w))[0] == x
  }

  /** Blocks that the fragment made. */
  ghost predicate Within(w: seq<int>, low: nat, f: Frag)
  {
    forall b :: b in w ==> low < b <= f.next.counter
  }

  /** An edge of that kind out of block `source` leads first to `x`. */
  ghost predicate Aims(f: Frag, low: nat, source: int, kind: EdgeKind, x: NodeId)
  {
    exists w :: Meets(f.edges, f.places, w, x) && Within(w, low, f) && Edge(source, w[0], kind) in f.edges
  }

  ghost predicate Takes(f: Frag, low: nat, c: Choice)
  {
    exists source :: Place(source, c.at) in f.places && Aims(f, low, source, c.kind, c.first)
  }

  /** An edge of that kind out of block `source` leads past empty blocks to the end. */
  ghost predicate Passes(f: Frag, low: nat, source: int, kind: EdgeKind)
  {
    exists w :: && IsWalk(ArcsOf(f.edges), w) && Within(w, low, f) && Last(w) == f.next.block
                && Edge(source, w[0], kind) in f.edges && forall b :: b in w ==> PlacedAt(f.places, b) == []
  }

  lemma SubWalk(a: seq<Edge>, b: seq<Edge>, w: seq<int>)
    requires IsWalk(ArcsOf(a), w) && forall e :: e in a ==> e in b
    ensures IsWalk(ArcsOf(b), w)
  {
    forall i | 0 < i < |w|
      ensures (w[i - 1], w[i]) in ArcsOf(b)
    {
      assert (w[i - 1], w[i]) in ArcsOf(a);
      ArcOfEdge(a, w[i - 1], w[i]);
      ArcOfEdge(b, w[i - 1], w[i]);
    }
  }

  /** What `h` places besides `f`: before it in older blocks, and after it in
      newer ones or in blocks that no edge of `f` leaves. */
  ghost predicate Amid(f: Frag, h: Frag, low: nat, a: seq<Place>, c: seq<Place>)
  {
    && h.places == a + f.places + c && f.next.counter <= h.next.counter
    && (forall e :: e in f.edges ==> e in h.edges)
    && (forall p :: p in a ==> p.block <= low)
    && (forall p :: p in c ==> p.block > f.next.counter || forall e :: e in f.edges ==> e.source != p.block)
  }

  lemma PlacedAmid(f: Frag, h: Frag, low: nat, a: seq<Place>, c: seq<Place>, b: int)
    requires Amid(f, h, low, a, c) && low < b <= f.next.counter
    ensures PlacedAt(h.places, b) == PlacedAt(f.places, b) + PlacedAt(c, b)
    ensures (exists e :: e in f.edges && e.source == b) ==> PlacedAt(h.places, b) == PlacedAt(f.places, b)
  {
    PlacedAtAppend(a + f.places, c, b);
    PlacedAtAppend(a, f.places, b);
    PlacedAtNowhere(a, b);
    if exists e :: e in f.edges && e.source == b {
      PlacedAtNowhere(c, b);
    }
  }

  lemma AimsAmid(f: Frag, h: Frag, low: nat, a: seq<Place>, c: seq<Place>, source: int, kind: EdgeKind, x: NodeId)
    requires Amid(f, h, low, a, c) && Aims(f, low, source, kind, x)
    ensures Aims(h, low, source, kind, x)
  {
    hide PlacedAt, Amid;
    var w :| Meets(f.edges, f.places, w, x) && Within(w, low, f) && Edge(source, w[0], kind) in f.edges;
    AmidEdges(f, h, low, a, c);
    SubWalk(f.edges, h.edges, w);
    forall i | 0 <= i < |w| - 1
      ensures PlacedAt(h.places, w[i]) == []
    {
      assert (w[(i + 1) - 1], w[i + 1]) in ArcsOf(f.edges);
      ArcOfEdge(f.edges, w[i], w[i + 1]);
      assert w[i] in w;
      PlacedAmid(f, h, low, a, c, w[i]);
    }
    assert Last(w) in w;
    PlacedAmid(f, h, low, a, c, Last(w));
    assert Meets(h.edges, h.places, w, x);
    assert Within(w, low, h);
  }

  lemma AmidEdges(f: Frag, h: Frag, low: nat, a: seq<Place>, c: seq<Place>)
    requires Amid(f, h, low, a, c)
    ensures forall e :: e in f.edges ==> e in h.edges
    ensures forall p :: p in f.places ==> p in h.places
    ensures f.next.counter <= h.next.counter
  {
  }

  lemma Lower(f: Frag, low: nat, lower: nat, source: int, kind: EdgeKind, x: NodeId)
    requires lower <= low && Aims(f, low, source, kind, x)
    ensures Aims(f, lower, source, kind, x)
  {
    var w :| Meets(f.edges, f.places, w, x) && Within(w, low, f) && Edge(source, w[0], kind) in f.edges;
    assert Within(w, lower, f);
  }

  lemma TakesAmid(f: Frag, h: Frag, low: nat, lower: nat, a: seq<Place>, c: seq<Place>, choice: Choice)
    requires Amid(f, h, low, a, c) && lower <= low && Takes(f, low, choice)
    ensures Takes(h, lower, choice)
  {
    hide Amid, Aims;
    var source :| Place(source, choice.at) in f.places && Aims(f, low, source, choice.kind, choice.first);
    AmidEdges(f, h, low, a, c);
    AimsAmid(f, h, low, a, c, source, choice.kind, choice.first);
    Lower(h, low, lower, source, choice.kind, choice.first);
  }

  // ----- A list meets first the node it starts with -----

  /** From block `b` on, the walk comes first to `x`, in blocks made after `low`. */
  ghost predicate MeetsFrom(f: Frag, low: nat, b: int, x: NodeId)
  {
    exists w :: Meets(f.edges, f.places, w, x) && w[0] == b && forall y :: y in w ==> y == b || low < y <= f.next.counter
  }

  lemma {:induction false} WalkMeets(ss: seq<Stmt>, p: Pos, loops: seq<LoopFrame>)
    requires Placed(p) && p.offset == 0 && FirstOf(ss).Some?
    ensures MeetsFrom(Walk(ss, p, loops), p.counter, p.block, FirstOf(ss).value)
    decreases SizeAll(ss), 2
  {
    hide Step, Confined, Walk, MeetsFrom;
    var f, x := Step(ss[0], p, loops), FirstOf(ss).value;
    var g := Walk(ss[1..], f.next, loops);
    WalkIs(ss, p, loops);
    StepConfined(ss[0], p, loops);
    NextPlaced(f, p, loops);
    WalkConfined(ss[1..], f.next, loops);
    if ss[0].Compound? {
      assert SizeAll(ss[0].children) < Size(ss[0]);
      CompoundMeets(ss[0], p, loops, x);
    } else {
      FirstMet(ss[0], p, loops);
    }
    MeetsThen(f, g, p, loops, x);
  }

  lemma WalkIs(ss: seq<Stmt>, p: Pos, loops: seq<LoopFrame>)
    requires ss != []
    ensures var f := Step(ss[0], p, loops); Walk(ss, p, loops) == f.Then(Walk(ss[1..], f.next, loops))
  {
  }

  lemma MeetsThen(f: Frag, g: Frag, p: Pos, loops: seq<LoopFrame>, x: NodeId)
    requires Placed(p) && Confined(f, p, loops) && Confined(g, f.next, loops) && MeetsFrom(f, p.counter, p.block, x)
    ensures MeetsFrom(f.Then(g), p.counter, p.block, x)
  {
    hide PlacedAt;
    var h := f.Then(g);
    var w :| Meets(f.edges, f.places, w, x) && w[0] == p.block && forall y :: y in w ==> y == p.block || p.counter < y <= f.next.counter;
    SubWalk(f.edges, h.edges, w);
    forall b
      ensures PlacedAt(h.places, b) == PlacedAt(f.places, b) + PlacedAt(g.places, b)
    {
      PlacedAtAppend(f.places, g.places, b);
    }
    forall i | 0 <= i < |w| - 1
      ensures PlacedAt(h.places, w[i]) == []
    {
      assert (w[(i + 1) - 1], w[i + 1]) in ArcsOf(f.edges);
      ArcOfEdge(f.edges, w[i], w[i + 1]);
      assert w[i] in w;
      PlacedAtNowhere(g.places, w[i]);
    }
    assert Meets(h.edges, h.places, w, x);
  }

  lemma FirstMet(s: Stmt, p: Pos, loops: seq<LoopFrame>)
    requires Placed(p) && p.offset == 0 && !s.Compound?
    ensures MeetsFrom(Step(s, p, loops), p.counter, p.block, s.id)
  {
    if s.Loop? {
      LoopMet(s, p, loops);
    } else {
      PlacedFirst(s, p, loops);
      var f := Step(s, p, loops);
      assert IsWalk(ArcsOf(f.edges), [p.block]);
      assert Meets(f.edges, f.places, [p.block], s.id);
    }
  }

  lemma PlacedFirst(s: Stmt, p: Pos, loops: seq<LoopFrame>)
    requires p.offset == 0 && !s.Compound? && !s.Loop?
    ensures var f := Step(s, p, loops); PlacedAt(f.places, p.block) != [] && PlacedAt(f.places, p.block)[0] == s.id
  {
    hide BranchStep, GroupsStep, CaseGroups;
    assert Step(s, p, loops).places[0] == Place(p.block, s.id);
  }

  lemma LoopMet(s: Stmt, p: Pos, loops: seq<LoopFrame>)
    requires Placed(p) && s.Loop?
    ensures MeetsFrom(LoopStep(s, p, loops), p.counter, p.block, s.id)
  {
    hide LoopBodyStep, Attached, LoopShape, MeetsFrom;
    var header, after := p.counter + 1, p.counter + 2;
    var inner := loops + [LoopFrame(header, after)];
    var kind := if s.kind.Do? then Fallthrough else TrueBranch;
    var f := LoopBodyStep(s.body, header, after, kind, inner);
    LoopBodyAttached(s.body, header, after, kind, inner);
    LoopHeaderMet(s.id, p, f, inner);
  }

  lemma LoopHeaderMet(id: NodeId, p: Pos, f: Frag, inner: seq<LoopFrame>)
    requires Placed(p) && Attached(f, {p.counter + 1}, {p.counter + 1}, p.counter + 2, inner)
    ensures MeetsFrom(LoopShape(id, p, f), p.counter, p.block, id)
  {
    var header := p.counter + 1;
    var h := LoopShape(id, p, f);
    assert h.places == [Place(header, id)] + f.places && h.places[1..] == f.places;
    PlacedAtNowhere(f.places, p.block);
    assert h.edges[0] == Edge(p.block, header, Fallthrough) && h.edges[0] in h.edges;
    ArcOfEdge(h.edges, p.block, header);
    var w := [p.block, header];
    assert Meets(h.edges, h.places, w, id);
  }

  lemma {:induction false} CompoundMeets(s: Stmt, p: Pos, loops: seq<LoopFrame>, x: NodeId)
    requires s.Compound? && Placed(p) && FirstOf(s.children) == Some(x)
    ensures MeetsFrom(Step(s, p, loops), p.counter, p.block, x)
    decreases SizeAll(s.children), 4
  {
    hide Walk, PlacedAt, Confined, BuildSequence;
    var f := BuildSequence(s.children, p.counter, loops);
    SequenceMeets(s.children, p.counter, loops);
    SequenceConfined(s.children, p.counter, loops);
    var h := CompoundStep(s, p, loops);
    var e := Edge(p.block, p.counter + 1, Fallthrough);
    assert h.edges == f.edges + [e] && h.places == f.places && h.next.counter >= f.next.counter;
    EnterCompound(f, h, p, loops, e, x);
  }

  lemma {:induction false} SequenceMeets(ss: seq<Stmt>, counter: nat, loops: seq<LoopFrame>)
    requires FirstOf(ss).Some?
    ensures MeetsFrom(BuildSequence(ss, counter, loops), counter + 1, counter + 1, FirstOf(ss).value)
    decreases SizeAll(ss), 3
  {
    hide Walk, MeetsFrom;
    WalkMeets(ss, Fresh(counter), loops);
  }

  lemma EnterCompound(f: Frag, h: Frag, p: Pos, loops: seq<LoopFrame>, e: Edge, x: NodeId)
    requires Placed(p) && Confined(f, Fresh(p.counter), loops) && MeetsFrom(f, p.counter + 1, p.counter + 1, x)
    requires e == Edge(p.block, p.counter + 1, Fallthrough)
    requires h.edges == f.edges + [e] && h.places == f.places && h.next.counter >= f.next.counter
    ensures MeetsFrom(h, p.counter, p.block, x)
  {
    hide PlacedAt;
    var w :| Meets(f.edges, f.places, w, x) && w[0] == p.counter + 1
      && forall y :: y in w ==> y == p.counter + 1 || p.counter + 1 < y <= f.next.counter;
    SubWalk(f.edges, h.edges, w);
    PlacedAtNowhere(f.places, p.block);
    assert e in h.edges;
    ArcOfEdge(h.edges, p.block, p.counter + 1);
    var v := [p.block] + w;
    forall i | 0 < i < |v|
      ensures (v[i - 1], v[i]) in ArcsOf(h.edges)
    {
      if i > 1 {
        assert (w[i - 2], w[i - 1]) in ArcsOf(h.edges);
      }
    }
    assert Last(v) == Last(w);
    assert Meets(h.edges, h.places, v, x);
  }

  // ----- Every choice is taken -----

  /** Within a list whose next statement is `next`: taken, or passed on to it. */
  ghost predicate Decides(f: Frag, low: nat, next: Option<NodeId>, c: Choice)
  {
    || Takes(f, low, c)
    || (next == Some(c.first) && exists source :: Place(source, c.at) in f.places && Passes(f, low, source, c.kind))
  }

  lemma {:induction false} WalkTakes(ss: seq<Stmt>, p: Pos, loops: seq<LoopFrame>)
    requires Placed(p)
    ensures forall c :: c in ChoicesAll(ss) ==> Takes(Walk(ss, p, loops), p.counter, c)
    decreases SizeAll(ss), 1
  {
    if ss != [] {
      hide Step, Confined, Walk, Takes, Decides, ChoicesOf, FirstOf;
      var f := Step(ss[0], p, loops);
      var g := Walk(ss[1..], f.next, loops);
      WalkIs(ss, p, loops);
      StepConfined(ss[0], p, loops);
      NextPlaced(f, p, loops);
      WalkConfined(ss[1..], f.next, loops);
      WalkTakes(ss[1..], f.next, loops);
      StepDecides(ss[0], p, loops, FirstOf(ss[1..]));
      forall c | c in ChoicesAll(ss)
        ensures Takes(f.Then(g), p.counter, c)
      {
        if c in ChoicesOf(ss[0], FirstOf(ss[1..])) {
          DecidesThen(ss, p, loops, f, g, c);
        } else {
          TakesThenRight(f, g, p, loops, c);
        }
      }
    }
  }

  lemma {:induction false} SequenceTakes(ss: seq<Stmt>, counter: nat, loops: seq<LoopFrame>)
    ensures forall c :: c in ChoicesAll(ss) ==> Takes(BuildSequence(ss, counter, loops), counter, c)
    decreases SizeAll(ss), 2
  {
    hide Walk, Takes, ChoicesAll;
    WalkTakes(ss, Fresh(counter), loops);
    var f := BuildSequence(ss, counter, loops);
    forall c | c in ChoicesAll(ss)
      ensures Takes(f, counter, c)
    {
      assert Amid(f, f, counter + 1, [], []) by {
        assert [] + f.places + [] == f.places;
      }
      TakesAmid(f, f, counter + 1, counter, [], [], c);
    }
  }

  lemma TakesThenLeft(f: Frag, g: Frag, p: Pos, loops: seq<LoopFrame>, c: Choice)
    requires Placed(p) && Confined(f, p, loops) && Confined(g, f.next, loops) && Takes(f, p.counter, c)
    ensures Takes(f.Then(g), p.counter, c)
  {
    hide Takes;
    assert f.Then(g).places == [] + f.places + g.places;
    assert Amid(f, f.Then(g), p.counter, [], g.places);
    TakesAmid(f, f.Then(g), p.counter, p.counter, [], g.places, c);
  }

  lemma TakesThenRight(f: Frag, g: Frag, p: Pos, loops: seq<LoopFrame>, c: Choice)
    requires Placed(p) && Confined(f, p, loops) && Confined(g, f.next, loops) && Takes(g, f.next.counter, c)
    ensures Takes(f.Then(g), p.counter, c)
  {
    hide Takes;
    assert f.Then(g).places == f.places + g.places + [];
    assert Amid(g, f.Then(g), f.next.counter, f.places, []);
    TakesAmid(g, f.Then(g), f.next.counter, p.counter, f.places, [], c);
  }

  lemma DecidesThen(ss: seq<Stmt>, p: Pos, loops: seq<LoopFrame>, f: Frag, g: Frag, c: Choice)
    requires ss != [] && Placed(p) && f == Step(ss[0], p, loops) && g == Walk(ss[1..], f.next, loops)
    requires Confined(f, p, loops) && Confined(g, f.next, loops)
    requires Decides(f, p.counter, FirstOf(ss[1..]), c)
    ensures Takes(f.Then(g), p.counter, c)
  {
    hide Step, Confined, Walk, Takes, Passes, FirstOf;
    if Takes(f, p.counter, c) {
      TakesThenLeft(f, g, p, loops, c);
    } else {
      var source :| Place(source, c.at) in f.places && Passes(f, p.counter, source, c.kind);
      NextPlaced(f, p, loops);
      PassesToEmpty(f, p, loops, source, c.kind);
      WalkMeets(ss[1..], f.next, loops);
      PassesOn(f, g, p, loops, source, c.kind, c.first);
      assert Place(source, c.at) in f.Then(g).places;
      assert Takes(f.Then(g), p.counter, c) by {
        PlaceTakes(f.Then(g), p.counter, source, c);
      }
    }
  }

  lemma PlaceTakes(f: Frag, low: nat, source: int, c: Choice)
    requires Place(source, c.at) in f.places && Aims(f, low, source, c.kind, c.first)
    ensures Takes(f, low, c)
  {
  }

  lemma PassesToEmpty(f: Frag, p: Pos, loops: seq<LoopFrame>, source: int, kind: EdgeKind)
    requires Placed(p) && Confined(f, p, loops) && Passes(f, p.counter, source, kind)
    ensures f.next.offset == 0 && f.next.block > p.counter && PlacedAt(f.places, f.next.block) == []
  {
    var w :| IsWalk(ArcsOf(f.edges), w) && Within(w, p.counter, f) && Last(w) == f.next.block
      && Edge(source, w[0], kind) in f.edges && forall b :: b in w ==> PlacedAt(f.places, b) == [];
    assert Last(w) in w;
  }

  /** Past the end of `f`, building goes on with `g`. */
  lemma PassesOn(f: Frag, g: Frag, p: Pos, loops: seq<LoopFrame>, source: int, kind: EdgeKind, x: NodeId)
    requires Placed(p) && Confined(f, p, loops) && Confined(g, f.next, loops)
    requires f.next.block > p.counter && PlacedAt(f.places, f.next.block) == []
    requires Passes(f, p.counter, source, kind) && MeetsFrom(g, f.next.counter, f.next.block, x)
    ensures Aims(f.Then(g), p.counter, source, kind, x)
  {
    hide PlacedAt;
    var h := f.Then(g);
    var w :| IsWalk(ArcsOf(f.edges), w) && Within(w, p.counter, f) && Last(w) == f.next.block
      && Edge(source, w[0], kind) in f.edges && forall b :: b in w ==> PlacedAt(f.places, b) == [];
    var v :| Meets(g.edges, g.places, v, x) && v[0] == f.next.block
      && forall y :: y in v ==> y == f.next.block || f.next.counter < y <= g.next.counter;
    PassesThrough(f, g, p, loops, w, v, x);
    assert Edge(source, w[0], kind) in h.edges;
  }

  lemma PassesThrough(f: Frag, g: Frag, p: Pos, loops: seq<LoopFrame>, w: seq<int>, v: seq<int>, x: NodeId)
    requires Placed(p) && Confined(f, p, loops) && Confined(g, f.next, loops)
    requires f.next.block > p.counter && PlacedAt(f.places, f.next.block) == []
    requires IsWalk(ArcsOf(f.edges), w) && Within(w, p.counter, f) && Last(w) == f.next.block
    requires forall b :: b in w ==> PlacedAt(f.places, b) == []
    requires Meets(g.edges, g.places, v, x) && v[0] == f.next.block
    requires forall y :: y in v ==> y == f.next.block || f.next.counter < y <= g.next.counter
    ensures var u := w + v[1..];
      Meets(f.Then(g).edges, f.Then(g).places, u, x) && Within(u, p.counter, f.Then(g)) && u[0] == w[0]
  {
    hide PlacedAt, ArcsOf;
    var h := f.Then(g);
    SubWalk(f.edges, h.edges, w);
    SubWalk(g.edges, h.edges, v);
    JoinWalks(ArcsOf(h.edges), w, v);
    var u := w + v[1..];
    forall b
      ensures PlacedAt(h.places, b) == PlacedAt(f.places, b) + PlacedAt(g.places, b)
    {
      PlacedAtAppend(f.places, g.places, b);
    }
    forall i | 0 <= i < |u| - 1
      ensures PlacedAt(h.places, u[i]) == []
    {
      if i < |w| - 1 {
        PlacedNotAfter(f, p, loops, g, w, i);
      } else {
        assert u[i] == v[i - (|w| - 1)];
        NotPlacedBefore(f, p, loops, g, v, i - (|w| - 1));
      }
    }
    assert Last(u) == Last(v);
    NotPlacedBefore(f, p, loops, g, v, |v| - 1);
    assert Within(u, p.counter, h) by {
      forall b | b in u
        ensures p.counter < b <= h.next.counter
      {
        assert b in w || b in v;
      }
    }
    assert Meets(h.edges, h.places, u, x);
  }

  /** A block that `f` leaves gets nothing from what is built after it. */
  lemma PlacedNotAfter(f: Frag, p: Pos, loops: seq<LoopFrame>, g: Frag, w: seq<int>, i: nat)
    requires Placed(p) && Confined(f, p, loops) && Confined(g, f.next, loops)
    requires IsWalk(ArcsOf(f.edges), w) && i + 1 < |w|
    requires forall b :: b in w ==> PlacedAt(f.places, b) == []
    ensures PlacedAt(f.places, w[i]) == [] && PlacedAt(g.places, w[i]) == []
  {
    hide PlacedAt;
    assert (w[(i + 1) - 1], w[i + 1]) in ArcsOf(f.edges);
    ArcOfEdge(f.edges, w[i], w[i + 1]);
    assert w[i] in w;
    PlacedAtNowhere(g.places, w[i]);
  }

  lemma NotPlacedBefore(f: Frag, p: Pos, loops: seq<LoopFrame>, g: Frag, v: seq<int>, k: nat)
    requires Placed(p) && Confined(f, p, loops) && k < |v| && PlacedAt(f.places, f.next.block) == []
    requires forall y :: y in v ==> y == f.next.block || f.next.counter < y <= g.next.counter
    ensures PlacedAt(f.places, v[k]) == []
  {
    assert v[k] in v;
    if v[k] != f.next.block {
      PlacedAtNowhere(f.places, v[k]);
    }
  }

  lemma {:induction false} StepDecides(s: Stmt, p: Pos, loops: seq<LoopFrame>, next: Option<NodeId>)
    requires Placed(p)
    ensures forall c :: c in ChoicesOf(s, next) ==> Decides(Step(s, p, loops), p.counter, next, c)
    decreases Size(s), 0
  {
    match s
    case Compound(_, ss) =>
      hide BuildSequence, Takes, ChoicesAll;
      var f := BuildSequence(ss, p.counter, loops);
      SequenceTakes(ss, p.counter, loops);
      forall c | c in ChoicesAll(ss)
        ensures Takes(CompoundStep(s, p, loops), p.counter, c)
      {
        assert [] + f.places + [] == f.places;
        assert Amid(f, CompoundStep(s, p, loops), p.counter, [], []);
        TakesAmid(f, CompoundStep(s, p, loops), p.counter, p.counter, [], [], c);
      }
    case If(_, _, _) => IfDecides(s, p, loops, next);
    case Loop(_, _, _) => LoopDecides(s, p, loops, next);
    case Switch(_, _) => SwitchDecides(s, p, loops, next);
    case _ =>
  }

  /** A list in blocks of its own, entered from `hub` and left for `meet`. */
  lemma {:induction false} BodyTakes(ss: seq<Stmt>, counter: nat, loops: seq<LoopFrame>, hub: int, kind: EdgeKind, meet: int,
                                     out: EdgeKind, h: Frag)
    requires var f := BuildSequence(ss, counter, loops);
      h == f.Wire([Edge(hub, counter + 1, kind), Edge(f.next.block, meet, out)])
    ensures forall c :: c in ChoicesAll(ss) ==> Takes(h, counter, c)
    ensures FirstOf(ss).Some? ==> Aims(h, counter, hub, kind, FirstOf(ss).value)
    decreases SizeAll(ss), 4
  {
    hide BuildSequence, Takes, Amid, ChoicesAll, Aims, MeetsFrom;
    var f := BuildSequence(ss, counter, loops);
    SequenceTakes(ss, counter, loops);
    WiredAmid(f, [Edge(hub, counter + 1, kind), Edge(f.next.block, meet, out)], counter);
    forall c | c in ChoicesAll(ss)
      ensures Takes(h, counter, c)
    {
      TakesAmid(f, h, counter, counter, [], [], c);
    }
    if FirstOf(ss).Some? {
      SequenceMeets(ss, counter, loops);
      SequenceConfined(ss, counter, loops);
      EntersFirst(f, h, counter, loops, hub, kind, meet, out, FirstOf(ss).value);
    }
  }

  lemma WiredAmid(f: Frag, more: seq<Edge>, low: nat)
    ensures Amid(f, f.Wire(more), low, [], [])
  {
    assert [] + f.places + [] == f.places;
  }

  lemma EntersFirst(f: Frag, h: Frag, counter: nat, loops: seq<LoopFrame>, hub: int, kind: EdgeKind, meet: int, out: EdgeKind,
                    x: NodeId)
    requires Confined(f, Fresh(counter), loops) && MeetsFrom(f, counter + 1, counter + 1, x)
    requires h == f.Wire([Edge(hub, counter + 1, kind), Edge(f.next.block, meet, out)])
    ensures Aims(h, counter, hub, kind, x)
  {
    hide PlacedAt;
    var w :| Meets(f.edges, f.places, w, x) && w[0] == counter + 1
      && forall y :: y in w ==> y == counter + 1 || counter + 1 < y <= f.next.counter;
    SubWalk(f.edges, h.edges, w);
    var more := [Edge(hub, counter + 1, kind), Edge(f.next.block, meet, out)];
    assert more[0] in more && more[0] in h.edges;
    assert Meets(h.edges, h.places, w, x) && Within(w, counter, h);
  }

  /** A branch, whether there is anything in it or not. */
  lemma {:induction false} BranchTakes(b: Option<Stmt>, hub: int, meet: int, counter: nat, kind: EdgeKind, loops: seq<LoopFrame>)
    ensures var h := BranchStep(b, hub, meet, counter, kind, loops);
      && (forall c :: c in ChoicesAll(Sequence(b)) ==> Takes(h, counter, c))
      && (FirstOf(Sequence(b)).Some? ==> Aims(h, counter, hub, kind, FirstOf(Sequence(b)).value))
    decreases OptionSize(b), 5
  {
    if b.Some? {
      hide BuildSequence, Takes, Aims, ChoicesAll;
      BodyTakes(Sequence(b), counter, loops, hub, kind, meet, Fallthrough, BranchStep(b, hub, meet, counter, kind, loops));
    }
  }

  lemma NothingBuilt(counter: nat, loops: seq<LoopFrame>)
    ensures BuildSequence([], counter, loops) == Nothing(Fresh(counter))
  {
    assert Walk([], Fresh(counter), loops) == Nothing(Fresh(counter));
  }

  /** An empty branch passes from `hub` on to `meet`. */
  lemma EmptyBranch(b: Option<Stmt>, hub: int, meet: int, counter: nat, kind: EdgeKind, loops: seq<LoopFrame>)
    requires Sequence(b) == []
    ensures var h := BranchStep(b, hub, meet, counter, kind, loops);
      && h.places == [] && h.next.counter == (if b.None? then counter else counter + 1)
      && h.edges == if b.None? then [Edge(hub, meet, kind)]
                    else [Edge(hub, counter + 1, kind), Edge(counter + 1, meet, Fallthrough)]
  {
    hide BuildSequence;
    NothingBuilt(counter, loops);
  }

  lemma EmptyBranchPasses(b: Option<Stmt>, hub: int, counter: nat, kind: EdgeKind, loops: seq<LoopFrame>, t: Frag,
                          h: Frag, low: nat)
    requires Sequence(b) == [] && t == BranchStep(b, hub, h.next.block, counter, kind, loops)
    requires low < h.next.block <= counter && t.next.counter <= h.next.counter
    requires forall e :: e in t.edges ==> e in h.edges
    requires PlacedAt(h.places, h.next.block) == [] && (b.Some? ==> PlacedAt(h.places, counter + 1) == [])
    ensures Passes(h, low, hub, kind)
  {
    hide PlacedAt, BranchStep;
    EmptyBranch(b, hub, h.next.block, counter, kind, loops);
    assert t.edges[0] in t.edges;
    if b.None? {
      assert IsWalk(ArcsOf(h.edges), [h.next.block]) && Within([h.next.block], low, h);
      assert Last([h.next.block]) == h.next.block;
    } else {
      var w := [counter + 1, h.next.block];
      assert t.edges[1] in t.edges;
      ArcOfEdge(h.edges, counter + 1, h.next.block);
      assert IsWalk(ArcsOf(h.edges), w) && Within(w, low, h) && Last(w) == h.next.block;
    }
  }

  /** One branch inside the fragment of its `if`. */
  lemma {:induction false} SideDecides(b: Option<Stmt>, id: NodeId, hub: int, low: nat, counter: nat, kind: EdgeKind,
                                       loops: seq<LoopFrame>, t: Frag, h: Frag, a: seq<Place>, z: seq<Place>, next: Option<NodeId>)
    requires t == BranchStep(b, hub, h.next.block, counter, kind, loops) && low < h.next.block <= counter
    requires Amid(t, h, counter, a, z) && Place(hub, id) in h.places
    requires PlacedAt(h.places, h.next.block) == [] && (b.Some? && Sequence(b) == [] ==> PlacedAt(h.places, counter + 1) == [])
    ensures forall c :: c in Pick(id, kind, FirstIn(b, next)) + ChoicesAll(Sequence(b)) ==> Decides(h, low, next, c)
    decreases OptionSize(b), 6
  {
    hide BranchStep, Takes, Aims, Passes, Amid, ChoicesAll, FirstOf, PlacedAt;
    BranchTakes(b, hub, h.next.block, counter, kind, loops);
    AmidEdges(t, h, counter, a, z);
    if Sequence(b) == [] {
      EmptyBranchPasses(b, hub, counter, kind, loops, t, h, low);
      NoChoices();
    } else if FirstOf(Sequence(b)).Some? {
      var x := FirstOf(Sequence(b)).value;
      AimsAmid(t, h, counter, a, z, hub, kind, x);
      Lower(h, counter, low, hub, kind, x);
      PlaceTakes(h, low, hub, Choice(id, kind, x));
    }
    forall c | c in ChoicesAll(Sequence(b))
      ensures Takes(h, low, c)
    {
      TakesAmid(t, h, counter, low, a, z, c);
    }
  }

  lemma NoChoices()
    ensures ChoicesAll([]) == {}
  {
  }

  lemma {:induction false} IfDecides(s: Stmt, p: Pos, loops: seq<LoopFrame>, next: Option<NodeId>)
    requires s.If? && Placed(p)
    ensures forall c :: c in ChoicesOf(s, next) ==> Decides(IfStep(s, p, loops), p.counter, next, c)
    decreases OptionSize(s.thenBranch) + OptionSize(s.elseBranch), 7
  {
    hide BranchStep, Decides, Amid, ChoicesAll, FirstIn, Attached, PlacedAt, IfShape, Pick;
    var join := p.counter + 1;
    var t := BranchStep(s.thenBranch, p.block, join, join, TrueBranch, loops);
    var middle := t.next.counter;
    var e := BranchStep(s.elseBranch, p.block, join, middle, FalseBranch, loops);
    var h := IfShape(s.id, p, t, e);
    BranchAttached(s.thenBranch, p.block, join, join, TrueBranch, loops);
    BranchAttached(s.elseBranch, p.block, join, middle, FalseBranch, loops);
    IfSides(s.id, p, t, e, loops);
    if s.thenBranch.Some? && Sequence(s.thenBranch) == [] {
      BranchEntryEmpty(s.thenBranch, p.block, join, join, TrueBranch, loops);
      NotPlaced(t, {p.block}, {join}, join, loops, join + 1);
      NotPlaced(e, {p.block}, {join}, middle, loops, join + 1);
    }
    if s.elseBranch.Some? && Sequence(s.elseBranch) == [] {
      BranchEntryEmpty(s.elseBranch, p.block, join, middle, FalseBranch, loops);
      NotPlaced(t, {p.block}, {join}, join, loops, middle + 1);
      NotPlaced(e, {p.block}, {join}, middle, loops, middle + 1);
    }
    SideDecides(s.thenBranch, s.id, p.block, p.counter, join, TrueBranch, loops, t, h, [Place(p.block, s.id)], e.places, next);
    SideDecides(s.elseBranch, s.id, p.block, p.counter, middle, FalseBranch, loops, e, h, [Place(p.block, s.id)] + t.places, [], next);
  }

  lemma BranchEntryEmpty(b: Option<Stmt>, hub: int, meet: int, counter: nat, kind: EdgeKind, loops: seq<LoopFrame>)
    requires b.Some? && Sequence(b) == []
    ensures var f := BranchStep(b, hub, meet, counter, kind, loops); f.places == [] && f.next.counter == counter + 1
  {
    hide BuildSequence;
    NothingBuilt(counter, loops);
  }

  lemma IfSides(id: NodeId, p: Pos, t: Frag, e: Frag, loops: seq<LoopFrame>)
    requires Placed(p) && Attached(t, {p.block}, {p.counter + 1}, p.counter + 1, loops)
    requires Attached(e, {p.block}, {p.counter + 1}, t.next.counter, loops)
    ensures var h, own := IfShape(id, p, t, e), [Place(p.block, id)];
      && Amid(t, h, p.counter + 1, own, e.places) && Amid(e, h, t.next.counter, own + t.places, [])
      && own[0] in h.places && h.next.block == p.counter + 1
      && (forall b :: PlacedAt(h.places, b) == (if b == p.block then [id] else []) + PlacedAt(t.places, b) + PlacedAt(e.places, b))
      && PlacedAt(h.places, p.counter + 1) == []
  {
    hide PlacedAt;
    var h, own := IfShape(id, p, t, e), [Place(p.block, id)];
    assert h.places == own + t.places + e.places && h.edges == t.edges + e.edges by {
      assert [] + t.edges == t.edges;
    }
    assert own + t.places + e.places + [] == own + t.places + e.places;
    IfPlaced(own, t.places, e.places, p.block, id);
    PlacedAtNowhere(t.places, p.counter + 1);
    PlacedAtNowhere(e.places, p.counter + 1);
  }

  lemma NotPlaced(f: Frag, hubs: set<int>, meets: set<int>, counter: nat, loops: seq<LoopFrame>, b: int)
    requires Attached(f, hubs, meets, counter, loops) && (f.places == [] || b <= counter || f.next.counter < b)
    ensures PlacedAt(f.places, b) == []
  {
    PlacedAtNowhere(f.places, b);
  }

  // ----- Loops -----

  lemma {:induction false} LoopDecides(s: Stmt, p: Pos, loops: seq<LoopFrame>, next: Option<NodeId>)
    requires s.Loop? && Placed(p)
    ensures forall c :: c in ChoicesOf(s, next) ==> Decides(LoopStep(s, p, loops), p.counter, next, c)
    decreases OptionSize(s.body), 7
  {
    hide LoopBodyStep, Takes, Aims, Passes, Amid, ChoicesAll, FirstOf, Attached, PlacedAt, LoopShape;
    var header, after := p.counter + 1, p.counter + 2;
    var inner := loops + [LoopFrame(header, after)];
    var kind := if s.kind.Do? then Fallthrough else TrueBranch;
    var f := LoopBodyStep(s.body, header, after, kind, inner);
    var h := LoopShape(s.id, p, f);
    LoopBodyAttached(s.body, header, after, kind, inner);
    LoopSides(s.id, p, f, inner);
    LoopBodyTakes(s.body, header, after, kind, inner);
    forall c | c in ChoicesAll(Sequence(s.body))
      ensures Takes(h, p.counter, c)
    {
      TakesAmid(f, h, after, p.counter, [Place(header, s.id)], [], c);
    }
    if s.body.Some? {
      if Sequence(s.body) == [] {
        EmptyLoop(s.body, s.id, p, kind, inner, f);
        PlaceTakes(h, p.counter, header, Choice(s.id, kind, s.id));
      } else if FirstOf(Sequence(s.body)).Some? {
        var x := FirstOf(Sequence(s.body)).value;
        AimsAmid(f, h, after, [Place(header, s.id)], [], header, kind, x);
        Lower(h, after, p.counter, header, kind, x);
        PlaceTakes(h, p.counter, header, Choice(s.id, kind, x));
      }
    }
  }

  lemma {:induction false} LoopBodyTakes(b: Option<Stmt>, header: int, counter: nat, kind: EdgeKind, loops: seq<LoopFrame>)
    ensures var h := LoopBodyStep(b, header, counter, kind, loops);
      && (forall c :: c in ChoicesAll(Sequence(b)) ==> Takes(h, counter, c))
      && (FirstOf(Sequence(b)).Some? ==> Aims(h, counter, header, kind, FirstOf(Sequence(b)).value))
    decreases OptionSize(b), 5
  {
    if b.Some? {
      hide BuildSequence, Takes, Aims, ChoicesAll;
      BodyTakes(Sequence(b), counter, loops, header, kind, header, LoopBack, LoopBodyStep(b, header, counter, kind, loops));
    }
  }

  lemma LoopSides(id: NodeId, p: Pos, f: Frag, inner: seq<LoopFrame>)
    requires Placed(p) && Attached(f, {p.counter + 1}, {p.counter + 1}, p.counter + 2, inner)
    ensures var h, own := LoopShape(id, p, f), [Place(p.counter + 1, id)];
      && Amid(f, h, p.counter + 2, own, []) && own[0] in h.places
      && Passes(h, p.counter, p.counter + 1, FalseBranch)
      && PlacedAt(h.places, p.counter + 1) == [id]
  {
    hide PlacedAt;
    var header, after := p.counter + 1, p.counter + 2;
    var h, own := LoopShape(id, p, f), [Place(header, id)];
    var enter, leave := [Edge(p.block, header, Fallthrough)], [Edge(header, after, FalseBranch)];
    assert h.places == own + f.places + [] && h.edges == enter + f.edges + leave && h.next.counter == f.next.counter;
    IfPlaced(own, f.places, [], header, id);
    PlacedAtNowhere(f.places, header);
    PlacedAtNowhere(f.places, after);
    PlacedAtNowhere([], header);
    PlacedAtNowhere([], after);
    assert leave[0] in h.edges;
    assert IsWalk(ArcsOf(h.edges), [after]) && Within([after], p.counter, h) && Last([after]) == after;
  }

  /** Through an empty body, a loop comes back to its test. */
  lemma EmptyLoop(b: Option<Stmt>, id: NodeId, p: Pos, kind: EdgeKind, inner: seq<LoopFrame>, f: Frag)
    requires b.Some? && Sequence(b) == [] && Placed(p) && f == LoopBodyStep(b, p.counter + 1, p.counter + 2, kind, inner)
    requires PlacedAt(LoopShape(id, p, f).places, p.counter + 1) == [id]
    ensures Aims(LoopShape(id, p, f), p.counter, p.counter + 1, kind, id)
  {
    hide PlacedAt, LoopShape, LoopBodyStep;
    var header, entry := p.counter + 1, p.counter + 3;
    var h := LoopShape(id, p, f);
    EmptyLoopBody(b, header, p.counter + 2, kind, inner);
    LoopHas(id, p, f);
    assert f.edges[0] in h.edges && f.edges[1] in h.edges;
    ArcOfEdge(h.edges, entry, header);
    assert h.places == [Place(header, id)] + [];
    PlacedAtNowhere(h.places, entry);
    var w := [entry, header];
    assert Meets(h.edges, h.places, w, id) && Within(w, p.counter, h);
  }

  lemma LoopHas(id: NodeId, p: Pos, f: Frag)
    ensures var h := LoopShape(id, p, f);
      (forall e :: e in f.edges ==> e in h.edges) && h.places == [Place(p.counter + 1, id)] + f.places
      && h.next.counter == f.next.counter
  {
  }

  lemma EmptyLoopBody(b: Option<Stmt>, header: int, counter: nat, kind: EdgeKind, loops: seq<LoopFrame>)
    requires b.Some? && Sequence(b) == []
    ensures var f := LoopBodyStep(b, header, counter, kind, loops);
      f.edges == [Edge(header, counter + 1, kind), Edge(counter + 1, header, LoopBack)] && f.places == []
      && f.next.counter == counter + 1
  {
    hide BuildSequence;
    NothingBuilt(counter, loops);
  }

  // ----- Switches -----

  lemma {:induction false} SwitchDecides(s: Stmt, p: Pos, loops: seq<LoopFrame>, next: Option<NodeId>)
    requires s.Switch? && Placed(p)
    ensures forall c :: c in ChoicesOf(s, next) ==> Decides(SwitchStep(s, p, loops), p.counter, next, c)
    decreases OptionSize(s.compound), 7
  {
    hide GroupsStep, Takes, Aims, Passes, Amid, CaseChoices, Attached, PlacedAt, SwitchShape, SwitchExits, CaseGroups, HasDefaultLabel;
    var after := p.counter + 1;
    if Braced(s.compound) {
      var ss := Sequence(s.compound);
      var groups := CaseGroups(ss);
      assert SizeGroups(groups) < Size(s.compound.value);
      var inner := loops + [LoopFrame(p.block, after)];
      var f := GroupsStep(groups, p.block, after, inner, None);
      var exits := SwitchExits(p.block, after, groups, f.next.block);
      var h := SwitchShape(s.id, p, f, exits);
      GroupsAttached(groups, p.block, after, inner, None);
      assert {p.block} + {} == {p.block};
      SwitchSides(s.id, p, f, exits, inner);
      GroupsTake(groups, s.id, p.block, after, inner, None);
      forall c | c in CaseChoices(s.id, groups)
        ensures Takes(h, p.counter, c)
      {
        CaseTaken(s.id, p, f, h, c);
      }
      DefaultGroup(ss);
      if !HasDefaultLabel(ss) {
        NoMatchExit(p.block, after, groups, f.next.block);
        SwitchPasses(s.id, p, f, exits, inner, NoMatch);
      }
    } else {
      var f := Nothing(Pos(after, 0, after));
      NothingAttached(after, p.block, loops);
      SwitchSides(s.id, p, f, [Edge(p.block, after, Fallthrough)], loops);
      SwitchPasses(s.id, p, f, [Edge(p.block, after, Fallthrough)], loops, Fallthrough);
    }
  }

  lemma NothingAttached(after: nat, hub: int, loops: seq<LoopFrame>)
    ensures Attached(Nothing(Pos(after, 0, after)), {hub}, {}, after, loops)
  {
  }

  lemma NoMatchExit(switchBlock: int, after: int, groups: seq<seq<Stmt>>, tail: int)
    requires (forall g: seq<Stmt> :: g in groups ==> |g| > 0 && g[0].Case?) && !HasDefault(groups)
    ensures Edge(switchBlock, after, NoMatch) in SwitchExits(switchBlock, after, groups, tail)
  {
    hide HasDefault;
  }

  lemma SwitchSides(id: NodeId, p: Pos, f: Frag, exits: seq<Edge>, inner: seq<LoopFrame>)
    requires Placed(p) && Attached(f, {p.block}, {}, p.counter + 1, inner)
    ensures var h, own := SwitchShape(id, p, f, exits), [Place(p.block, id)];
      && Amid(f, h, p.counter + 1, own, []) && own[0] in h.places
  {
    var h, own := SwitchShape(id, p, f, exits), [Place(p.block, id)];
    assert h.places == own + f.places + [];
  }

  lemma SwitchPasses(id: NodeId, p: Pos, f: Frag, exits: seq<Edge>, inner: seq<LoopFrame>, kind: EdgeKind)
    requires Placed(p) && Attached(f, {p.block}, {}, p.counter + 1, inner) && Edge(p.block, p.counter + 1, kind) in exits
    ensures Passes(SwitchShape(id, p, f, exits), p.counter, p.block, kind)
  {
    hide PlacedAt;
    var h, after := SwitchShape(id, p, f, exits), p.counter + 1;
    assert h.places == [Place(p.block, id)] + f.places;
    PlacedAtNowhere(h.places, after);
    assert Edge(p.block, after, kind) in h.edges;
    assert IsWalk(ArcsOf(h.edges), [after]) && Within([after], p.counter, h) && Last([after]) == after;
  }

  lemma CaseTaken(id: NodeId, p: Pos, f: Frag, h: Frag, c: Choice)
    requires Amid(f, h, p.counter + 1, [Place(p.block, id)], []) && Place(p.block, id) in h.places
    requires Takes(f, p.counter + 1, c) || (c.at == id && Aims(f, p.counter + 1, p.block, c.kind, c.first))
    ensures Takes(h, p.counter, c)
  {
    hide Amid, Aims, Takes;
    var own := [Place(p.block, id)];
    if Takes(f, p.counter + 1, c) {
      TakesAmid(f, h, p.counter + 1, p.counter, own, [], c);
    } else {
      AimsAmid(f, h, p.counter + 1, own, [], p.block, c.kind, c.first);
      Lower(h, p.counter + 1, p.counter, p.block, c.kind, c.first);
      PlaceTakes(h, p.counter, p.block, c);
    }
  }

  /** The groups of a switch, without its own block. */
  lemma {:induction false} GroupsTake(groups: seq<seq<Stmt>>, id: NodeId, switchBlock: int, counter: nat, loops: seq<LoopFrame>,
                                      previous: Option<int>)
    requires forall g: seq<Stmt> :: g in groups ==> |g| > 0 && g[0].Case?
    requires switchBlock <= counter && (previous.Some? ==> previous.value <= counter)
    ensures forall c :: c in CaseChoices(id, groups) ==>
      var f := GroupsStep(groups, switchBlock, counter, loops, previous);
      Takes(f, counter, c) || (c.at == id && Aims(f, counter, switchBlock, c.kind, c.first))
    decreases SizeGroups(groups), 6, |groups|
  {
    if groups != [] {
      hide GroupFrag, Takes, Aims, Amid, ChoicesAll, Attached;
      var f := GroupFrag(groups[0], switchBlock, counter, loops, previous);
      var g := GroupsStep(groups[1..], switchBlock, f.next.counter, loops, Some(f.next.block));
      GroupEnds(groups[0], switchBlock, counter, loops, previous);
      GroupTakes(groups[0], switchBlock, counter, loops, previous);
      GroupsTake(groups[1..], id, switchBlock, f.next.counter, loops, Some(f.next.block));
      GroupsMeet(groups, f, g, switchBlock, previous, counter, loops);
      GroupsAmid(f, g, switchBlock, previous, counter, loops);
      forall c | c in CaseChoices(id, groups)
        ensures Takes(f.Then(g), counter, c) || (c.at == id && Aims(f.Then(g), counter, switchBlock, c.kind, c.first))
      {
        GroupThenTakes(groups, id, f, g, switchBlock, counter, c);
      }
    }
  }

  lemma GroupsAmid(f: Frag, g: Frag, switchBlock: int, previous: Option<int>, counter: nat, loops: seq<LoopFrame>)
    requires GroupMet(f, g, switchBlock, previous, counter, loops)
    ensures Amid(f, f.Then(g), counter, [], g.places) && Amid(g, f.Then(g), f.next.counter, f.places, [])
    ensures counter <= f.next.counter
  {
    assert [] + f.places + g.places == f.places + g.places && f.places + g.places + [] == f.places + g.places;
  }

  lemma GroupThenTakes(groups: seq<seq<Stmt>>, id: NodeId, f: Frag, g: Frag, switchBlock: int, counter: nat, c: Choice)
    requires groups != [] && (forall g: seq<Stmt> :: g in groups ==> |g| > 0 && g[0].Case?) && c in CaseChoices(id, groups)
    requires Amid(f, f.Then(g), counter, [], g.places) && Amid(g, f.Then(g), f.next.counter, f.places, [])
    requires counter <= f.next.counter
    requires forall d :: d in ChoicesAll(groups[0]) ==> Takes(f, counter, d)
    requires Aims(f, counter, switchBlock, if groups[0][0].isDefault then DefaultEdge else CaseEdge, groups[0][0].id)
    requires forall d :: d in CaseChoices(id, groups[1..]) ==>
      Takes(g, f.next.counter, d) || (d.at == id && Aims(g, f.next.counter, switchBlock, d.kind, d.first))
    ensures Takes(f.Then(g), counter, c) || (c.at == id && Aims(f.Then(g), counter, switchBlock, c.kind, c.first))
  {
    hide Takes, Aims, Amid, ChoicesAll;
    var h := f.Then(g);
    if c in ChoicesAll(groups[0]) {
      TakesAmid(f, h, counter, counter, [], g.places, c);
    } else if c in CaseChoices(id, groups[1..]) {
      if Takes(g, f.next.counter, c) {
        TakesAmid(g, h, f.next.counter, counter, f.places, [], c);
      } else {
        AimsAmid(g, h, f.next.counter, f.places, [], switchBlock, c.kind, c.first);
        Lower(h, f.next.counter, counter, switchBlock, c.kind, c.first);
      }
    } else {
      AimsAmid(f, h, counter, [], g.places, switchBlock, c.kind, c.first);
    }
  }

  lemma {:induction false} GroupTakes(group: seq<Stmt>, switchBlock: int, counter: nat, loops: seq<LoopFrame>, previous: Option<int>)
    requires |group| > 0 && group[0].Case?
    ensures var f := GroupFrag(group, switchBlock, counter, loops, previous);
      && (forall c :: c in ChoicesAll(group) ==> Takes(f, counter, c))
      && Aims(f, counter, switchBlock, if group[0].isDefault then DefaultEdge else CaseEdge, group[0].id)
    decreases SizeAll(group), 5
  {
    hide BuildSequence, Takes, Aims, Amid, ChoicesAll, MeetsFrom;
    var f := BuildSequence(group, counter, loops);
    var kind := if group[0].isDefault then DefaultEdge else CaseEdge;
    var more := [Edge(switchBlock, counter + 1, kind)]
      + if previous.Some? then [Edge(previous.value, counter + 1, SwitchFallthrough)] else [];
    SequenceTakes(group, counter, loops);
    WiredAmid(f, more, counter);
    forall c | c in ChoicesAll(group)
      ensures Takes(f.Wire(more), counter, c)
    {
      TakesAmid(f, f.Wire(more), counter, counter, [], [], c);
    }
    SequenceMeets(group, counter, loops);
    SequenceConfined(group, counter, loops);
    GroupEntered(f, more, counter, switchBlock, kind, group[0].id);
  }

  lemma GroupEntered(f: Frag, more: seq<Edge>, counter: nat, switchBlock: int, kind: EdgeKind, x: NodeId)
    requires MeetsFrom(f, counter + 1, counter + 1, x) && more != [] && more[0] == Edge(switchBlock, counter + 1, kind)
    requires counter + 1 <= f.next.counter
    ensures Aims(f.Wire(more), counter, switchBlock, kind, x)
  {
    hide PlacedAt;
    var h := f.Wire(more);
    var w :| Meets(f.edges, f.places, w, x) && w[0] == counter + 1
      && forall y :: y in w ==> y == counter + 1 || counter + 1 < y <= f.next.counter;
    SubWalk(f.edges, h.edges, w);
    assert more[0] in h.edges;
    assert Meets(h.edges, h.places, w, x) && Within(w, counter, h);
  }
}
