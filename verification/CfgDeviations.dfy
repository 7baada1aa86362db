/** Where the built graph departs from the language, by concrete bodies. */
module CfgDeviations {
  import opened Collections
  import opened Ast
  import opened Runs
  import opened Paths
  import opened CfgSpec
  import opened CfgTheorem
  import opened Readings

  /** A bare compound statement cuts the body in two: the run that executes both
      statements is no path, and in fact no path at all reaches the exit. */
  lemma BareCompoundLosesRuns(t: seq<NodeId>)
    ensures CompleteRun(InC, [Compound(3, [Plain(1)]), Plain(2)], [1, 2])
    ensures !GraphTrace(RawGraph([Compound(3, [Plain(1)]), Plain(2)]), t)
  {
    hide RawGraph, GraphTrace;
    var inner := [Plain(1)];
    var body := [Compound(3, inner), Plain(2)];
    assert body[1..] == [Plain(2)] && inner[1..] == [];
    FirstThenSecond(body);
    assert RegularAll(inner, AtTop) && RegularAll(body[1..], AtTop);
    RawGraphAsBuilt(body, t);
    NothingAsBuilt(body, t, Normal);
    NothingAsBuilt(body, t, Returned);
  }

  lemma FirstThenSecond(body: seq<Stmt>)
    requires body == [Compound(3, [Plain(1)]), Plain(2)]
    ensures ExecutesAll(InC, body, [1, 2], Normal)
  {
    OneStatement(InC, 1);
    OneStatement(InC, 2);
    assert body[1..] == [Plain(2)];
    assert [1, 2][..1] == [1] && [1, 2][1..] == [2];
    assert Executes(InC, body[0], [1, 2][..1], Normal) && ExecutesAll(InC, body[1..], [1, 2][1..], Normal);
  }

  lemma NothingAsBuilt(body: seq<Stmt>, t: seq<NodeId>, o: Outcome)
    requires body != [] && body[0] == Compound(3, [Plain(1)])
    ensures !ExecutesAll(AsBuilt, body, t, o)
  {
    if ExecutesAll(AsBuilt, body, t, o) {
      var abrupt, k := SplitRun(AsBuilt, body, t, o);
      if abrupt {
        OneStatementOnly(AsBuilt, 1, t, o);
      }
    }
  }

  lemma OneStatement(r: Reading, id: NodeId)
    ensures ExecutesAll(r, [Plain(id)], [id], Normal)
  {
    SplitsSomewhere(r, [Plain(id)], [id], Normal);
    assert [id][..1] == [id] && [id][1..] == [] && [Plain(id)][1..] == [];
    assert GoesOn(r, [Plain(id)], [id], 1, Normal);
  }

  lemma OneStatementOnly(r: Reading, id: NodeId, t: seq<NodeId>, o: Outcome)
    requires ExecutesAll(r, [Plain(id)], t, o)
    ensures t == [id] && o == Normal
  {
    SplitsSomewhere(r, [Plain(id)], t, o);
    var k :| 0 <= k <= |t| && GoesOn(r, [Plain(id)], t, k, o);
    assert t == t[..k] + t[k..] && [Plain(id)][1..] == [];
  }

  /** A `do` loop is entered at its test: the run that executes the body and
      then leaves is no path, and the path that skips the body is no run. */
  lemma DoLoopIsEnteredAtItsTest(body: seq<Stmt>)
    requires body == [Loop(1, Do, Some(Plain(2)))]
    ensures CompleteRun(InC, body, [2, 1]) && !GraphTrace(RawGraph(body), [2, 1])
    ensures !CompleteRun(InC, body, [1]) && GraphTrace(RawGraph(body), [1])
  {
    hide RawGraph, GraphTrace;
    var s := body[0];
    assert Sequence(s.body) == [Plain(2)] && [Plain(2)][1..] == [];
    assert RegularAll(Sequence(s.body), InLoop) && body[1..] == [] && Regular(s, AtTop) && RegularAll(body, AtTop);
    RawGraphAsBuilt(body, [2, 1]);
    RawGraphAsBuilt(body, [1]);
    DoAlone(body, s);
  }

  lemma DoAlone(body: seq<Stmt>, s: Stmt)
    requires s == Loop(1, Do, Some(Plain(2))) && body == [s]
    ensures CompleteRun(InC, body, [2, 1]) && !CompleteRun(AsBuilt, body, [2, 1])
    ensures !CompleteRun(InC, body, [1]) && CompleteRun(AsBuilt, body, [1])
  {
    hide ExecutesAll;
    OneStatement(InC, 2);
    assert [2, 1][..1] == [2] && GoesRound(InC, s, [2, 1][..1]);
    assert Executes(InC, s, [2, 1], Normal);
    assert Executes(AsBuilt, s, [1], Normal);
    Alone(InC, s, [2, 1]);
    Alone(AsBuilt, s, [2, 1]);
    Alone(InC, s, [1]);
    Alone(AsBuilt, s, [1]);
    forall o
      ensures !Executes(AsBuilt, s, [2, 1], o)
      ensures !Executes(InC, s, [1], o)
    {
      NotOnce(s, o);
    }
  }

  /** A body of one statement runs as that statement does. */
  lemma Alone(r: Reading, s: Stmt, t: seq<NodeId>)
    ensures CompleteRun(r, [s], t) <==> Executes(r, s, t, Normal) || Executes(r, s, t, Returned)
  {
    hide Executes;
    assert [s][1..] == [] && t[..|t|] == t && t[|t|..] == [];
    forall o
      ensures ExecutesAll(r, [s], t, o) <==> Executes(r, s, t, o)
    {
      SplitsSomewhere(r, [s], t, o);
      if k :| 0 <= k <= |t| && GoesOn(r, [s], t, k, o) {
        assert k == |t|;
      }
      if o == Normal && Executes(r, s, t, o) {
        assert GoesOn(r, [s], t, |t|, o);
      }
    }
  }

  lemma NotOnce(s: Stmt, o: Outcome)
    requires s == Loop(1, Do, Some(Plain(2)))
    ensures !ExecutesWhile(AsBuilt, s, [2, 1], o) && !ExecutesDo(InC, s, [1], o)
  {
    hide ExecutesAll;
    forall r, t, p | ExecutesAll(r, [Plain(2)], t, p)
      ensures t == [2] && p == Normal
    {
      OneStatementOnly(r, 2, t, p);
    }
    assert Sequence(s.body) == [Plain(2)];
  }

  /** A label reached only by `goto` is given no way out when it ends the body:
      the gotos are wired after the implicit return is decided. */
  lemma TrailingLabelHasNoReturn(g: Cfg)
    requires g == RawGraph([Goto(1, "L"), Label(2, "L")])
    ensures 2 in g.blocks && g.blocks[2] == [2] && Reaches(g.Arcs(), ENTRY, 2)
    ensures !Reaches(g.Arcs(), ENTRY, EXIT)
  {
    hide RawGraph;
    TrailingLabelGraph(g);
    var arcs := g.Arcs();
    assert g.edges[0] in g.edges && g.edges[1] in g.edges;
    assert WalkFromTo(arcs, [ENTRY, 1, 2], ENTRY, 2);
    assert Closed(arcs, {ENTRY, 1, 2});
    if Reaches(arcs, ENTRY, EXIT) {
      ClosedContainsReachable(arcs, {ENTRY, 1, 2}, ENTRY, EXIT);
    }
  }

  lemma TrailingLabelGraph(g: Cfg)
    requires g == RawGraph([Goto(1, "L"), Label(2, "L")])
    ensures g.edges == [Edge(ENTRY, 1, Fallthrough), Edge(1, 2, GotoEdge)]
    ensures 2 in g.blocks && g.blocks[2] == [2]
  {
    hide Walk, Step;
    var body := [Goto(1, "L"), Label(2, "L")];
    var f := BuildSequence(body, 0, []);
    TrailingLabelFrag(body, f);
    var edges := [Edge(ENTRY, 1, Fallthrough)];
    assert f.edges + edges == edges;
    assert f.labels == [LabelDef("L", 2)] && Last(f.labels).name == "L";
    assert f.gotos[1..] == [];
    assert Successors(edges, 2) == [] && Predecessors(edges, 2) == [];
    assert f.places[1..] == [Place(2, 2)] && f.places[1..][1..] == [];
  }

  lemma TrailingLabelFrag(body: seq<Stmt>, f: Frag)
    requires body == [Goto(1, "L"), Label(2, "L")] && f == BuildSequence(body, 0, [])
    ensures f == Frag([], [Place(1, 1), Place(2, 2)], [LabelDef("L", 2)], [PendingGoto(1, "L")], Pos(2, 1, 2))
  {
    var p, q := Fresh(0), Fresh(1);
    var a, b := Step(body[0], p, []), Step(body[1], q, []);
    assert a == Frag([], [Place(1, 1)], [], [PendingGoto(1, "L")], q);
    assert b == Frag([], [Place(2, 2)], [LabelDef("L", 2)], [], Pos(2, 1, 2));
    assert body[1..] == [body[1]] && body[1..][1..] == [];
    assert Walk(body[1..], q, []) == b.Then(Nothing(b.next));
  }
}
