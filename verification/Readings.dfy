/** The two readings of a statement tree compared: what the language says, and
    what the builder makes of it. They give a body the same runs exactly when a
    check on the tree succeeds. */
module Readings {
  import opened Collections
  import opened Ast
  import opened Runs

  // ------------------------------------------------------------------
  // Runs of lists
  // ------------------------------------------------------------------

  /** The first statement takes `k` steps and finishes; the others take the rest. */
  ghost predicate GoesOn(r: Reading, ss: seq<Stmt>, t: seq<NodeId>, k: int, o: Outcome)
    requires ss != [] && 0 <= k <= |t|
  {
    Executes(r, ss[0], t[..k], Normal) && ExecutesAll(r, ss[1..], t[k..], o)
  }

  lemma SplitsSomewhere(r: Reading, ss: seq<Stmt>, t: seq<NodeId>, o: Outcome)
    requires ss != []
    ensures ExecutesAll(r, ss, t, o) <==>
      (o != Normal && Executes(r, ss[0], t, o)) || exists k :: 0 <= k <= |t| && GoesOn(r, ss, t, k, o)
  {
    hide Executes;
    if o == Normal || !Executes(r, ss[0], t, o) {
      if ExecutesAll(r, ss, t, o) {
        var k :| 0 <= k <= |t| && Executes(r, ss[0], t[..k], Normal) && ExecutesAll(r, ss[1..], t[k..], o);
        assert GoesOn(r, ss, t, k, o);
      }
    }
  }

  lemma InOrder(r: Reading, ss: seq<Stmt>, t: seq<NodeId>, u: seq<NodeId>, o: Outcome)
    requires ss != [] && Executes(r, ss[0], t, Normal) && ExecutesAll(r, ss[1..], u, o)
    ensures ExecutesAll(r, ss, t + u, o)
  {
    hide Executes, ExecutesAll;
    assert (t + u)[..|t|] == t && (t + u)[|t|..] == u;
    assert GoesOn(r, ss, t + u, |t|, o);
    SplitsSomewhere(r, ss, t + u, o);
  }

  /** A run of one list after another. */
  lemma {:induction false} RunOfFront(r: Reading, a: seq<Stmt>, b: seq<Stmt>, t: seq<NodeId>, o: Outcome)
    requires o != Normal && ExecutesAll(r, a, t, o)
    ensures ExecutesAll(r, a + b, t, o)
    decreases |a|
  {
    hide Executes;
    assert (a + b)[0] == a[0] && (a + b)[1..] == a[1..] + b;
    SplitsSomewhere(r, a, t, o);
    SplitsSomewhere(r, a + b, t, o);
    if !Executes(r, a[0], t, o) {
      var k :| 0 <= k <= |t| && GoesOn(r, a, t, k, o);
      RunOfFront(r, a[1..], b, t[k..], o);
      assert GoesOn(r, a + b, t, k, o);
    }
  }

  /** A run of a list splits after its first statement, or ends in it. */
  lemma SplitRun(r: Reading, ss: seq<Stmt>, t: seq<NodeId>, o: Outcome) returns (abrupt: bool, k: nat)
    requires ss != [] && ExecutesAll(r, ss, t, o)
    ensures abrupt ==> o != Normal && Executes(r, ss[0], t, o)
    ensures !abrupt ==> k <= |t| && Executes(r, ss[0], t[..k], Normal) && ExecutesAll(r, ss[1..], t[k..], o)
  {
    hide Executes;
    abrupt, k := o != Normal && Executes(r, ss[0], t, o), 0;
    if !abrupt {
      k :| 0 <= k <= |t| && Executes(r, ss[0], t[..k], Normal) && ExecutesAll(r, ss[1..], t[k..], o);
    }
  }

  lemma FirstOfBoth<T>(a: seq<T>, b: seq<T>)
    requires a != []
    ensures a + b != [] && (a + b)[0] == a[0] && (a + b)[1..] == a[1..] + b
  {
  }

  lemma NothingRan(r: Reading, ss: seq<Stmt>, t: seq<NodeId>, o: Outcome)
    requires ss == []
    ensures ExecutesAll(r, ss, t, o) <==> t == [] && o == Normal
  {
  }

  lemma {:induction false} RunThrough(r: Reading, a: seq<Stmt>, b: seq<Stmt>, t: seq<NodeId>, u: seq<NodeId>, o: Outcome)
    requires ExecutesAll(r, a, t, Normal) && ExecutesAll(r, b, u, o)
    ensures ExecutesAll(r, a + b, t + u, o)
    decreases |a|
  {
    hide Executes, ExecutesAll;
    if a == [] {
      NothingRan(r, a, t, Normal);
      assert a + b == b && t + u == u;
    } else {
      var _, k := SplitRun(r, a, t, Normal);
      FirstOfBoth(a, b);
      RunThrough(r, a[1..], b, t[k..], u, o);
      InOrder(r, a + b, t[..k], t[k..] + u, o);
      assert t[..k] + (t[k..] + u) == t + u;
    }
  }

  lemma {:induction false} RunOfBoth(r: Reading, a: seq<Stmt>, b: seq<Stmt>, t: seq<NodeId>, o: Outcome)
    returns (abrupt: bool, k: nat)
    requires ExecutesAll(r, a + b, t, o)
    ensures abrupt ==> o != Normal && ExecutesAll(r, a, t, o)
    ensures !abrupt ==> k <= |t| && ExecutesAll(r, a, t[..k], Normal) && ExecutesAll(r, b, t[k..], o)
    decreases |a|
  {
    hide Executes, ExecutesAll;
    if a == [] {
      abrupt, k := false, 0;
      NothingRan(r, a, t[..0], Normal);
      assert a + b == b && t[0..] == t;
    } else {
      FirstOfBoth(a, b);
      var m;
      abrupt, m := SplitRun(r, a + b, t, o);
      if abrupt {
        k := 0;
        SplitsSomewhere(r, a, t, o);
      } else {
        abrupt, k := RunOfBoth(r, a[1..], b, t[m..], o);
        if abrupt {
          RestAbrupt(r, a, t, m, o);
        } else {
          FirstAndRest(r, a, t, m, k);
          k := m + k;
        }
      }
    }
  }

  lemma RestAbrupt(r: Reading, a: seq<Stmt>, t: seq<NodeId>, m: nat, o: Outcome)
    requires a != [] && m <= |t|
    requires Executes(r, a[0], t[..m], Normal) && ExecutesAll(r, a[1..], t[m..], o)
    ensures ExecutesAll(r, a, t, o)
  {
    hide Executes, ExecutesAll;
    InOrder(r, a, t[..m], t[m..], o);
    assert t[..m] + t[m..] == t;
  }

  lemma FirstAndRest(r: Reading, a: seq<Stmt>, t: seq<NodeId>, m: nat, k: nat)
    requires a != [] && m + k <= |t|
    requires Executes(r, a[0], t[..m], Normal) && ExecutesAll(r, a[1..], t[m..][..k], Normal)
    ensures ExecutesAll(r, a, t[..m + k], Normal) && t[m..][k..] == t[m + k..]
  {
    hide Executes, ExecutesAll;
    InOrder(r, a, t[..m], t[m..][..k], Normal);
    assert t[..m] + t[m..][..k] == t[..m + k];
  }

  // ------------------------------------------------------------------
  // Which nodes a run meets
  // ------------------------------------------------------------------

  ghost predicate Within(t: seq<NodeId>, ids: seq<NodeId>)
  {
    forall x :: x in t ==> x in ids
  }

  lemma {:induction false} RunsWithin(r: Reading, s: Stmt, t: seq<NodeId>, o: Outcome)
    requires Executes(r, s, t, o)
    ensures Within(t, Nodes(s))
    decreases |t|, Size(s), 1
  {
    match s
    case If(id, th, el) =>
      assert t == [id] + t[1..];
      if ExecutesAll(r, Sequence(th), t[1..], o) {
        AllRunsWithin(r, Sequence(th), t[1..], o);
      } else {
        AllRunsWithin(r, Sequence(el), t[1..], o);
      }
    case Loop(_, kind, b) =>
      if b.None? {
        assert t == [s.id];
      } else if kind.Do? && r.InC? {
        DoRunsWithin(r, s, t, o);
      } else {
        WhileRunsWithin(r, s, t, o);
      }
    case Compound(_, ss) => AllRunsWithin(r, ss, t, o);
    case Switch(_, _) => SwitchRunsWithin(r, s, t, o);
    case _ =>
  }

  /** Nodes of a list from some place on are nodes of the list. */
  lemma NodesFrom(ss: seq<Stmt>, i: nat)
    requires i <= |ss|
    ensures Within(NodesOf(ss[i..]), NodesOf(ss))
  {
    assert ss == ss[..i] + ss[i..];
    NodesOfAppend(ss[..i], ss[i..]);
  }

  lemma {:induction false} SwitchRunsWithin(r: Reading, s: Stmt, t: seq<NodeId>, o: Outcome)
    requires s.Switch? && Executes(r, s, t, o)
    ensures Within(t, Nodes(s))
    decreases |t|, Size(s), 0
  {
    hide ExecutesAll, NodesOf;
    assert t == [t[0]] + t[1..];
    var ss := Sequence(s.compound);
    if !Hollow(s) && (t != [s.id] || o != Normal || HasDefaultLabel(ss)) {
      var i :| 0 <= i < |ss| && ss[i].Case? && RunsFrom(r, ss[i..], t[1..], o);
      NodesFrom(ss, i);
      if o == Normal && ExecutesAll(r, ss[i..], t[1..], Broke) {
        AllRunsWithin(r, ss[i..], t[1..], Broke);
      } else {
        AllRunsWithin(r, ss[i..], t[1..], o);
      }
    }
  }

  lemma {:induction false} AllRunsWithin(r: Reading, ss: seq<Stmt>, t: seq<NodeId>, o: Outcome)
    requires ExecutesAll(r, ss, t, o)
    ensures Within(t, NodesOf(ss))
    decreases |t|, SizeAll(ss), 2
  {
    if ss != [] {
      hide Executes, Nodes;
      SplitsSomewhere(r, ss, t, o);
      if o != Normal && Executes(r, ss[0], t, o) {
        RunsWithin(r, ss[0], t, o);
      } else {
        var k :| 0 <= k <= |t| && GoesOn(r, ss, t, k, o);
        RunsWithin(r, ss[0], t[..k], Normal);
        AllRunsWithin(r, ss[1..], t[k..], o);
        assert t == t[..k] + t[k..];
      }
    }
  }

  lemma {:induction false} WhileRunsWithin(r: Reading, s: Stmt, t: seq<NodeId>, o: Outcome)
    requires s.Loop? && ExecutesWhile(r, s, t, o)
    ensures Within(t, Nodes(s))
    decreases |t|, Size(s), 0
  {
    hide ExecutesAll;
    assert t == [t[0]] + t[1..];
    if o == Normal && ExecutesAll(r, Sequence(s.body), t[1..], Broke) {
      AllRunsWithin(r, Sequence(s.body), t[1..], Broke);
    } else if o == Returned && ExecutesAll(r, Sequence(s.body), t[1..], Returned) {
      AllRunsWithin(r, Sequence(s.body), t[1..], Returned);
    } else if t != [s.id] || o != Normal {
      var k :| 1 <= k <= |t| && GoesRound(r, s, t[1..k]) && ExecutesWhile(r, s, t[k..], o);
      RoundWithin(r, s, t[1..k]);
      WhileRunsWithin(r, s, t[k..], o);
      assert t == [t[0]] + t[1..k] + t[k..];
    }
  }

  lemma {:induction false} DoRunsWithin(r: Reading, s: Stmt, t: seq<NodeId>, o: Outcome)
    requires s.Loop? && ExecutesDo(r, s, t, o)
    ensures Within(t, Nodes(s))
    decreases |t|, Size(s), 0
  {
    hide ExecutesAll, GoesRound, NodesOf;
    if o == Normal && ExecutesAll(r, Sequence(s.body), t, Broke) {
      AllRunsWithin(r, Sequence(s.body), t, Broke);
    } else if o == Returned && ExecutesAll(r, Sequence(s.body), t, Returned) {
      AllRunsWithin(r, Sequence(s.body), t, Returned);
    } else {
      var k :| 0 <= k < |t| && GoesRound(r, s, t[..k]) && t[k] == s.id
               && ((k + 1 == |t| && o == Normal) || ExecutesDo(r, s, t[k + 1..], o));
      DoRoundWithin(r, s, t, k, o);
    }
  }

  lemma {:induction false} DoRoundWithin(r: Reading, s: Stmt, t: seq<NodeId>, k: int, o: Outcome)
    requires s.Loop? && 0 <= k < |t| && GoesRound(r, s, t[..k]) && t[k] == s.id
    requires (k + 1 == |t| && o == Normal) || ExecutesDo(r, s, t[k + 1..], o)
    ensures Within(t, Nodes(s))
    decreases |t|, SizeAll(Sequence(s.body)), 4
  {
    hide ExecutesDo, GoesRound, NodesOf;
    RoundWithin(r, s, t[..k]);
    if !(k + 1 == |t| && o == Normal) {
      DoRunsWithin(r, s, t[k + 1..], o);
    }
    forall x | x in t
      ensures x in Nodes(s)
    {
      var i :| 0 <= i < |t| && t[i] == x;
      assert i < k ==> t[..k][i] == x && x in t[..k];
      assert i > k ==> t[k + 1..][i - k - 1] == x && x in t[k + 1..];
    }
  }

  lemma {:induction false} RoundWithin(r: Reading, s: Stmt, t: seq<NodeId>)
    requires s.Loop? && GoesRound(r, s, t)
    ensures Within(t, NodesOf(Sequence(s.body)))
    decreases |t|, SizeAll(Sequence(s.body)), 3
  {
    if ExecutesAll(r, Sequence(s.body), t, Normal) {
      AllRunsWithin(r, Sequence(s.body), t, Normal);
    } else {
      AllRunsWithin(r, Sequence(s.body), t, Continued);
    }
  }

  // ------------------------------------------------------------------
  // A run shows its outcome
  // ------------------------------------------------------------------

  /** The outcome of a run that ends in node `id`. */
  function OutcomeAt(s: Stmt, id: NodeId): Outcome
    decreases Size(s), 0
  {
    match s
    case Return(_) => Returned
    case Break(_) => Broke
    case Continue(_) => Continued
    case If(_, th, el) =>
      if id == s.id then Normal
      else if id in NodesOf(Sequence(th)) then OutcomeAtAll(Sequence(th), id)
      else OutcomeAtAll(Sequence(el), id)
    case Loop(_, _, b) =>
      if id != s.id && OutcomeAtAll(Sequence(b), id) == Returned then Returned else Normal
    case Switch(_, b) =>
      var o := if id == s.id then Normal else OutcomeAtAll(Sequence(b), id);
      if o == Broke then Normal else o
    case Compound(_, ss) => OutcomeAtAll(ss, id)
    case _ => Normal
  }

  function OutcomeAtAll(ss: seq<Stmt>, id: NodeId): Outcome
    decreases SizeAll(ss), 1
  {
    if ss == [] then Normal
    else if id in Nodes(ss[0]) then OutcomeAt(ss[0], id)
    else OutcomeAtAll(ss[1..], id)
  }

  /** What a run's last node says; a run without nodes just finishes. */
  function Shows(s: Stmt, t: seq<NodeId>): Outcome
  {
    if t == [] then Normal else OutcomeAt(s, t[|t| - 1])
  }

  function ShowsAll(ss: seq<Stmt>, t: seq<NodeId>): Outcome
  {
    if t == [] then Normal else OutcomeAtAll(ss, t[|t| - 1])
  }

  /** Distinct nodes of a list are distinct in its parts, and the parts disjoint. */
  lemma PartsDistinct(a: seq<NodeId>, b: seq<NodeId>)
    requires NoRepeats(a + b)
    ensures NoRepeats(a) && NoRepeats(b) && forall x :: x in a ==> x !in b
  {
    var c := a + b;
    assert forall i :: 0 <= i < |a| ==> a[i] == c[i];
    assert forall i :: 0 <= i < |b| ==> b[i] == c[|a| + i];
  }

  lemma ListDistinct(ss: seq<Stmt>)
    requires ss != [] && NoRepeats(NodesOf(ss))
    ensures NoRepeats(Nodes(ss[0])) && NoRepeats(NodesOf(ss[1..]))
    ensures forall x :: x in Nodes(ss[0]) ==> x !in NodesOf(ss[1..])
  {
    PartsDistinct(Nodes(ss[0]), NodesOf(ss[1..]));
  }

  lemma IfDistinct(s: Stmt)
    requires s.If? && NoRepeats(Nodes(s))
    ensures var a, b := NodesOf(Sequence(s.thenBranch)), NodesOf(Sequence(s.elseBranch));
      NoRepeats(a) && NoRepeats(b) && s.id !in a && s.id !in b && forall x :: x in a ==> x !in b
  {
    var a, b := NodesOf(Sequence(s.thenBranch)), NodesOf(Sequence(s.elseBranch));
    PartsDistinct([s.id] + a, b);
    PartsDistinct([s.id], a);
    assert s.id in [s.id] && s.id in [s.id] + a;
    assert forall x :: x in a ==> x in [s.id] + a;
  }

  function Branch(s: Stmt, first: bool): seq<Stmt>
    requires s.If?
  {
    if first then Sequence(s.thenBranch) else Sequence(s.elseBranch)
  }

  lemma LoopDistinct(s: Stmt)
    requires s.Loop? && NoRepeats(Nodes(s))
    ensures var b := NodesOf(Sequence(s.body)); NoRepeats(b) && s.id !in b
  {
    PartsDistinct([s.id], NodesOf(Sequence(s.body)));
    assert s.id in [s.id];
  }

  lemma {:induction false} OutcomeShown(r: Reading, s: Stmt, t: seq<NodeId>, o: Outcome)
    requires NoRepeats(Nodes(s)) && Executes(r, s, t, o)
    ensures o == Shows(s, t)
    decreases |t|, Size(s), 1
  {
    match s
    case If(_, _, _) => IfOutcomeShown(r, s, t, o);
    case Loop(_, kind, b) =>
      if b.None? {
        assert t == [s.id];
      } else if kind.Do? && r.InC? {
        DoOutcomeShown(r, s, t, o);
      } else {
        WhileOutcomeShown(r, s, t, o);
      }
    case Compound(_, ss) => AllOutcomeShown(r, ss, t, o);
    case Switch(_, _) => SwitchOutcomeShown(r, s, t, o);
    case _ =>
  }

  lemma {:induction false} OutcomeFrom(ss: seq<Stmt>, i: nat, id: NodeId)
    requires i <= |ss| && NoRepeats(NodesOf(ss)) && id in NodesOf(ss[i..])
    ensures OutcomeAtAll(ss, id) == OutcomeAtAll(ss[i..], id) && NoRepeats(NodesOf(ss[i..]))
    decreases i
  {
    if i > 0 {
      hide Nodes, NodesOf, OutcomeAt;
      ListDistinct(ss);
      assert ss[1..][i - 1..] == ss[i..];
      NodesFrom(ss[1..], i - 1);
      OutcomeFrom(ss[1..], i - 1, id);
    } else {
      assert ss[0..] == ss;
    }
  }

  lemma SwitchDistinct(s: Stmt, i: nat)
    requires s.Switch? && NoRepeats(Nodes(s)) && i <= |Sequence(s.compound)|
    ensures NoRepeats(NodesOf(Sequence(s.compound))) && NoRepeats(NodesOf(Sequence(s.compound)[i..]))
    ensures s.id !in NodesOf(Sequence(s.compound))
  {
    hide NodesOf;
    var ss := Sequence(s.compound);
    PartsDistinct([s.id], NodesOf(ss));
    assert s.id in [s.id];
    NodesOfAppend(ss[..i], ss[i..]);
    assert ss == ss[..i] + ss[i..];
    PartsDistinct(NodesOf(ss[..i]), NodesOf(ss[i..]));
  }

  lemma {:induction false} SwitchOutcomeShown(r: Reading, s: Stmt, t: seq<NodeId>, o: Outcome)
    requires s.Switch? && NoRepeats(Nodes(s)) && Executes(r, s, t, o)
    ensures o == Shows(s, t)
    decreases |t|, Size(s), 0
  {
    hide ExecutesAll, Nodes, NodesOf, OutcomeAtAll;
    var ss := Sequence(s.compound);
    if !Hollow(s) && (t != [s.id] || o != Normal || HasDefaultLabel(ss)) {
      var i :| 0 <= i < |ss| && ss[i].Case? && RunsFrom(r, ss[i..], t[1..], o);
      var b := if o == Normal && ExecutesAll(r, ss[i..], t[1..], Broke) then Broke else o;
      SwitchDistinct(s, i);
      AllOutcomeShown(r, ss[i..], t[1..], b);
      AllRunsWithin(r, ss[i..], t[1..], b);
      if |t| > 1 {
        var last := t[|t| - 1];
        assert t[1..][|t| - 2] == last && t[1..][|t| - 2] in t[1..];
        NodesFrom(ss, i);
        OutcomeFrom(ss, i, last);
      } else {
        assert t[1..] == [];
        EmptyRun(r, ss[i..], b);
      }
    }
  }

  lemma {:induction false} IfOutcomeShown(r: Reading, s: Stmt, t: seq<NodeId>, o: Outcome)
    requires s.If? && NoRepeats(Nodes(s)) && Executes(r, s, t, o)
    ensures o == Shows(s, t)
    decreases |t|, Size(s), 0
  {
    hide Nodes, ExecutesAll;
    IfDistinct(s);
    var a, b := Sequence(s.thenBranch), Sequence(s.elseBranch);
    if ExecutesAll(r, a, t[1..], o) {
      AllOutcomeShown(r, a, t[1..], o);
      AllRunsWithin(r, a, t[1..], o);
    } else {
      AllOutcomeShown(r, b, t[1..], o);
      AllRunsWithin(r, b, t[1..], o);
    }
    if |t| > 1 {
      assert t[1..][|t| - 2] == t[|t| - 1] && t[1..][|t| - 2] in t[1..];
    }
  }

  lemma {:induction false} AllOutcomeShown(r: Reading, ss: seq<Stmt>, t: seq<NodeId>, o: Outcome)
    requires NoRepeats(NodesOf(ss)) && ExecutesAll(r, ss, t, o)
    ensures o == ShowsAll(ss, t)
    decreases |t|, SizeAll(ss), 2
  {
    if ss != [] {
      hide Executes, Nodes, NodesOf, OutcomeAt;
      ListDistinct(ss);
      SplitsSomewhere(r, ss, t, o);
      if o != Normal && Executes(r, ss[0], t, o) {
        OutcomeShown(r, ss[0], t, o);
        RunsWithin(r, ss[0], t, o);
        assert t != [] && t[|t| - 1] in t;
      } else {
        var k :| 0 <= k <= |t| && GoesOn(r, ss, t, k, o);
        OutcomeShown(r, ss[0], t[..k], Normal);
        RunsWithin(r, ss[0], t[..k], Normal);
        AllOutcomeShown(r, ss[1..], t[k..], o);
        AllRunsWithin(r, ss[1..], t[k..], o);
        if k < |t| {
          assert t[k..][|t| - k - 1] == t[|t| - 1] && t[k..][|t| - k - 1] in t[k..];
        } else if k > 0 {
          assert t[..k] == t && t[|t| - 1] in t;
        }
      }
    }
  }

  lemma {:induction false} WhileOutcomeShown(r: Reading, s: Stmt, t: seq<NodeId>, o: Outcome)
    requires s.Loop? && NoRepeats(Nodes(s)) && ExecutesWhile(r, s, t, o)
    ensures o == Shows(s, t)
    decreases |t|, Size(s), 0
  {
    hide ExecutesAll, Nodes, NodesOf, GoesRound, OutcomeAtAll;
    var body := Sequence(s.body);
    LoopDistinct(s);
    if t != [s.id] && o == Normal && ExecutesAll(r, body, t[1..], Broke) {
      AllOutcomeShown(r, body, t[1..], Broke);
      assert t[1..][|t| - 2] == t[|t| - 1];
    } else if t != [s.id] && o == Returned && ExecutesAll(r, body, t[1..], Returned) {
      AllOutcomeShown(r, body, t[1..], Returned);
      AllRunsWithin(r, body, t[1..], Returned);
      assert t[1..][|t| - 2] == t[|t| - 1] && t[1..][|t| - 2] in t[1..];
    } else if t == [s.id] {
      if o != Normal {
        OnlyHeader(r, s, t, o);
      }
    } else {
      var k :| 1 <= k <= |t| && GoesRound(r, s, t[1..k]) && ExecutesWhile(r, s, t[k..], o);
      WhileOutcomeShown(r, s, t[k..], o);
      assert t[k..][|t| - k - 1] == t[|t| - 1];
    }
  }

  lemma OnlyHeader(r: Reading, s: Stmt, t: seq<NodeId>, o: Outcome)
    requires s.Loop? && NoRepeats(Nodes(s)) && ExecutesWhile(r, s, t, o) && t == [s.id]
    ensures o == Normal
  {
    hide Nodes, NodesOf, GoesRound;
    LoopDistinct(s);
    if o == Returned && ExecutesAll(r, Sequence(s.body), t[1..], Returned) {
      assert t[1..] == [];
      EmptyRun(r, Sequence(s.body), Returned);
    }
  }

  lemma {:induction false} DoOutcomeShown(r: Reading, s: Stmt, t: seq<NodeId>, o: Outcome)
    requires s.Loop? && NoRepeats(Nodes(s)) && ExecutesDo(r, s, t, o)
    ensures t != [] && o == Shows(s, t)
    decreases |t|, Size(s), 0
  {
    hide ExecutesAll, Nodes, NodesOf, GoesRound, OutcomeAtAll;
    var body := Sequence(s.body);
    LoopDistinct(s);
    if o == Normal && ExecutesAll(r, body, t, Broke) {
      AllOutcomeShown(r, body, t, Broke);
    } else if o == Returned && ExecutesAll(r, body, t, Returned) {
      AllOutcomeShown(r, body, t, Returned);
      AllRunsWithin(r, body, t, Returned);
      assert t[|t| - 1] in t;
    } else {
      var k :| 0 <= k < |t| && GoesRound(r, s, t[..k]) && t[k] == s.id
               && ((k + 1 == |t| && o == Normal) || ExecutesDo(r, s, t[k + 1..], o));
      if !(k + 1 == |t| && o == Normal) {
        DoOutcomeShown(r, s, t[k + 1..], o);
        assert t[k + 1..][|t| - k - 2] == t[|t| - 1];
      }
    }
  }

  // ------------------------------------------------------------------
  // Runs without nodes
  // ------------------------------------------------------------------

  /** Only empty braces run without meeting a node; then they finish, unless the
      builder made something of them. */
  lemma {:induction false} EmptyRun(r: Reading, ss: seq<Stmt>, o: Outcome)
    requires ExecutesAll(r, ss, [], o)
    ensures o == Normal && Silent(ss) && (r.AsBuilt? ==> ss == [])
    decreases SizeAll(ss), 1
  {
    if ss != [] {
      hide Executes;
      SplitsSomewhere(r, ss, [], o);
      if o != Normal && Executes(r, ss[0], [], o) {
        EmptyStep(r, ss[0], o);
      } else {
        var k :| 0 <= k <= 0 && GoesOn(r, ss, [], k, o);
        var t: seq<NodeId> := [];
        assert t[..k] == t && t[k..] == t;
        EmptyStep(r, ss[0], Normal);
        EmptyRun(r, ss[1..], o);
      }
    }
  }

  lemma {:induction false} EmptyStep(r: Reading, s: Stmt, o: Outcome)
    requires Executes(r, s, [], o)
    ensures o == Normal && Nodes(s) == [] && r.InC?
    decreases Size(s), 0
  {
    match s
    case Compound(_, ss) => EmptyRun(r, ss, o);
    case Loop(_, kind, b) =>
      if kind.Do? && r.InC? {
        if o == Normal {
          EmptyRun(r, Sequence(b), Broke);
        } else {
          EmptyRun(r, Sequence(b), Returned);
        }
      }
    case _ =>
  }

  lemma {:induction false} SilentRuns(ss: seq<Stmt>, c: Context)
    requires RegularAll(ss, c) && Silent(ss)
    ensures ExecutesAll(InC, ss, [], Normal)
    decreases SizeAll(ss)
  {
    if ss != [] {
      assert Nodes(ss[0]) == [] && NodesOf(ss[1..]) == [];
      SilentRuns(ss[1..], c);
      assert ss[0].Compound? && Size(ss[0]) == 1 + SizeAll(ss[0].children);
      SilentRuns(ss[0].children, c.Within());
      assert Executes(InC, ss[0], [], Normal);
      InOrder(InC, ss, [], [], Normal);
    }
  }

  lemma SilentOnly(r: Reading, ss: seq<Stmt>, t: seq<NodeId>, o: Outcome)
    requires Silent(ss) && ExecutesAll(r, ss, t, o)
    ensures t == [] && o == Normal && (r.AsBuilt? ==> ss == [])
  {
    AllRunsWithin(r, ss, t, o);
    if t != [] {
      HasMember(t);
    }
    EmptyRun(r, ss, o);
  }

  lemma HasMember(t: seq<NodeId>)
    requires t != []
    ensures exists x :: x in t
  {
    assert t[0] in t;
  }

  // ------------------------------------------------------------------
  // Nothing jumps astray
  // ------------------------------------------------------------------

  /** Nothing breaks outside of loops and switches, and nothing continues outside
      of loops or across a switch. */
  lemma {:induction false} NoStrayJumps(r: Reading, s: Stmt, c: Context, t: seq<NodeId>, o: Outcome)
    requires Regular(s, c) && Executes(r, s, t, o)
    ensures (c.AtTop? ==> o != Broke) && (!c.InLoop? ==> o != Continued)
    decreases Size(s), 0
  {
    match s
    case If(_, th, el) =>
      if ExecutesAll(r, Sequence(th), t[1..], o) {
        NoStrayJumpsInAll(r, Sequence(th), c.Within(), t[1..], o);
      } else {
        NoStrayJumpsInAll(r, Sequence(el), c.Within(), t[1..], o);
      }
    case Loop(_, _, b) =>
      if b.Some? {
        LoopOutcome(r, s, t, o);
      }
    case Compound(_, ss) => NoStrayJumpsInAll(r, ss, c.Within(), t, o);
    case Switch(_, _) => SwitchOutcome(r, s, t, o);
    case _ =>
  }

  lemma {:induction false} LoopOutcome(r: Reading, s: Stmt, t: seq<NodeId>, o: Outcome)
    requires s.Loop? && (ExecutesWhile(r, s, t, o) || ExecutesDo(r, s, t, o))
    ensures o == Normal || o == Returned
    decreases |t|
  {
    hide ExecutesAll, GoesRound;
    if o != Normal && o != Returned {
      if ExecutesWhile(r, s, t, o) {
        var k :| 1 <= k <= |t| && GoesRound(r, s, t[1..k]) && ExecutesWhile(r, s, t[k..], o);
        LoopOutcome(r, s, t[k..], o);
      } else {
        var k :| 0 <= k < |t| && GoesRound(r, s, t[..k]) && t[k] == s.id
                 && ((k + 1 == |t| && o == Normal) || ExecutesDo(r, s, t[k + 1..], o));
        LoopOutcome(r, s, t[k + 1..], o);
      }
    }
  }

  lemma {:induction false} SwitchOutcome(r: Reading, s: Stmt, t: seq<NodeId>, o: Outcome)
    requires s.Switch? && (Braced(s.compound) ==> RegularAll(Sequence(s.compound), AmongCases)) && Executes(r, s, t, o)
    ensures o == Normal || o == Returned
    decreases OptionSize(s.compound), 3
  {
    hide ExecutesAll;
    var ss := Sequence(s.compound);
    if o != Normal {
      var i :| 0 <= i < |ss| && ss[i].Case? && RunsFrom(r, ss[i..], t[1..], o);
      RegularFrom(ss, AmongCases, i);
      SmallerFrom(ss, i);
      NoStrayJumpsInAll(r, ss[i..], AmongCases, t[1..], o);
    }
  }

  lemma {:induction false} NoStrayJumpsInAll(r: Reading, ss: seq<Stmt>, c: Context, t: seq<NodeId>, o: Outcome)
    requires RegularAll(ss, c) && ExecutesAll(r, ss, t, o)
    ensures (c.AtTop? ==> o != Broke) && (!c.InLoop? ==> o != Continued)
    decreases SizeAll(ss), 1
  {
    if ss != [] {
      hide Executes, Regular;
      var abrupt, k := SplitRun(r, ss, t, o);
      if abrupt {
        NoStrayJumps(r, ss[0], c, t, o);
      } else {
        NoStrayJumpsInAll(r, ss[1..], c, t[k..], o);
      }
    }
  }

  // ------------------------------------------------------------------
  // The language never gets stuck
  // ------------------------------------------------------------------

  lemma {:induction false} SomeRun(s: Stmt, c: Context) returns (t: seq<NodeId>, o: Outcome)
    requires Regular(s, c)
    ensures Executes(InC, s, t, o)
    decreases Size(s), 0
  {
    match s
    case If(id, th, el) =>
      var u;
      u, o := SomeRunOfAll(Sequence(th), c.Within());
      t := [id] + u;
      assert t[1..] == u;
    case Loop(id, kind, b) =>
      if kind.Do? && b.Some? {
        t, o := SomeRunOfDo(s, c);
      } else {
        t, o := [id], Normal;
      }
    case Compound(_, ss) => t, o := SomeRunOfAll(ss, c.Within());
    case Switch(_, _) => t, o := SomeRunOfSwitch(s, c);
    case Return(id) => t, o := [id], Returned;
    case Break(id) => t, o := [id], Broke;
    case Continue(id) => t, o := [id], Continued;
    case _ => t, o := [s.id], Normal;
  }

  lemma {:induction false} SomeRunOfDo(s: Stmt, c: Context) returns (t: seq<NodeId>, o: Outcome)
    requires s.Loop? && s.kind.Do? && s.body.Some? && Regular(s, c)
    ensures Executes(InC, s, t, o)
    ensures o == Normal || (o == Returned && ExecutesAll(InC, Sequence(s.body), t, Returned))
    decreases OptionSize(s.body), 2
  {
    hide ExecutesAll;
    t, o := SomeRunOfAll(Sequence(s.body), InLoop);
    if o == Broke {
      o := Normal;
    } else if o != Returned {
      var u := t + [s.id];
      assert u[..|t|] == t && u[|t|] == s.id;
      assert GoesRound(InC, s, u[..|t|]);
      t, o := u, Normal;
    }
  }

  lemma {:induction false} SomeRunOfSwitch(s: Stmt, c: Context) returns (t: seq<NodeId>, o: Outcome)
    requires s.Switch? && Regular(s, c)
    ensures Executes(InC, s, t, o)
    decreases OptionSize(s.compound), 2
  {
    hide ExecutesAll;
    var ss := Sequence(s.compound);
    if Hollow(s) || !HasDefaultLabel(ss) {
      t, o := [s.id], Normal;
    } else {
      var i :| 0 <= i < |ss| && ss[i].Case? && ss[i].isDefault;
      SmallerFrom(ss, i);
      RegularFrom(ss, AmongCases, i);
      var u, p := SomeRunOfAll(ss[i..], AmongCases);
      NoStrayJumpsInAll(InC, ss[i..], AmongCases, u, p);
      t, o := LabelledRun(InC, s, i, u, p);
    }
  }

  lemma SmallerFrom(ss: seq<Stmt>, i: nat)
    requires i <= |ss|
    ensures SizeAll(ss[i..]) <= SizeAll(ss)
  {
    SizeAllAppend(ss[..i], ss[i..]);
    assert ss == ss[..i] + ss[i..];
  }

  /** What a `switch` makes of the way in which its children end. */
  function Caught(p: Outcome): Outcome
  {
    if p == Broke then Normal else p
  }

  /** A run from a label on is a run of the `switch`. */
  lemma LabelledRun(r: Reading, s: Stmt, i: nat, u: seq<NodeId>, p: Outcome) returns (t: seq<NodeId>, o: Outcome)
    requires s.Switch? && Braced(s.compound) && i < |Sequence(s.compound)| && Sequence(s.compound)[i].Case?
    requires ExecutesAll(r, Sequence(s.compound)[i..], u, p)
    ensures t == [s.id] + u && o == Caught(p) && Executes(r, s, t, o)
  {
    hide ExecutesAll;
    t, o := [s.id] + u, Caught(p);
    assert t[1..] == u;
    assert RunsFrom(r, Sequence(s.compound)[i..], t[1..], o);
  }

  lemma {:induction false} SomeRunOfAll(ss: seq<Stmt>, c: Context) returns (t: seq<NodeId>, o: Outcome)
    requires RegularAll(ss, c)
    ensures ExecutesAll(InC, ss, t, o)
    decreases SizeAll(ss), 1
  {
    if ss == [] {
      t, o := [], Normal;
    } else {
      hide Executes;
      t, o := SomeRun(ss[0], c);
      if o == Normal {
        var u;
        u, o := SomeRunOfAll(ss[1..], c);
        InOrder(InC, ss, t, u, o);
        t := t + u;
      }
    }
  }

  // ------------------------------------------------------------------
  // Finishing and breaking
  // ------------------------------------------------------------------

  lemma {:induction false} FinishedMayFinish(r: Reading, s: Stmt, t: seq<NodeId>)
    requires Executes(r, s, t, Normal)
    ensures MayFinish(s)
    decreases Size(s), 0
  {
    match s
    case If(_, th, el) =>
      if ExecutesAll(r, Sequence(th), t[1..], Normal) {
        AllFinishedMayFinish(r, Sequence(th), t[1..]);
      } else {
        AllFinishedMayFinish(r, Sequence(el), t[1..]);
      }
    case Compound(_, ss) => AllFinishedMayFinish(r, ss, t);
    case Switch(_, _) => FinishedMayLeave(r, s, t);
    case _ =>
  }

  lemma {:induction false} FinishedMayLeave(r: Reading, s: Stmt, t: seq<NodeId>)
    requires s.Switch? && Executes(r, s, t, Normal)
    ensures MayFinish(s)
    decreases OptionSize(s.compound), 2
  {
    hide ExecutesAll;
    var ss := Sequence(s.compound);
    if !Hollow(s) && HasDefaultLabel(ss) {
      var i :| 0 <= i < |ss| && ss[i].Case? && RunsFrom(r, ss[i..], t[1..], Normal);
      SmallerFrom(ss, i);
      if ExecutesAll(r, ss[i..], t[1..], Normal) {
        AllFinishedMayFinish(r, ss[i..], t[1..]);
      } else {
        AllBrokeMayBreak(r, ss[i..], t[1..]);
      }
      LeaveFrom(ss, i);
    }
  }

  lemma {:induction false} LeaveFrom(ss: seq<Stmt>, i: nat)
    requires i < |ss| && ss[i].Case? && (AllMayFinish(ss[i..]) || MayBreakAll(ss[i..]))
    ensures MayLeave(ss)
    decreases i
  {
    hide MayBreakAll, AllMayFinish;
    if i > 0 {
      assert ss[1..][i - 1..] == ss[i..];
      LeaveFrom(ss[1..], i - 1);
    } else {
      assert ss[0..] == ss;
    }
  }

  /** The label from which a `switch` may be left. */
  lemma {:induction false} LeavingLabel(ss: seq<Stmt>) returns (i: nat)
    requires MayLeave(ss)
    ensures i < |ss| && ss[i].Case? && (AllMayFinish(ss[i..]) || MayBreakAll(ss[i..]))
    decreases |ss|
  {
    hide MayBreakAll, AllMayFinish;
    if ss[0].Case? && (AllMayFinish(ss) || MayBreakAll(ss)) {
      i := 0;
      assert ss[0..] == ss;
    } else {
      i := LeavingLabel(ss[1..]);
      assert ss[1..][i..] == ss[i + 1..];
      i := i + 1;
    }
  }

  lemma {:induction false} AllFinishedMayFinish(r: Reading, ss: seq<Stmt>, t: seq<NodeId>)
    requires ExecutesAll(r, ss, t, Normal)
    ensures AllMayFinish(ss)
    decreases SizeAll(ss), 1
  {
    if ss != [] {
      hide Executes, MayFinish;
      var _, k := SplitRun(r, ss, t, Normal);
      FinishedMayFinish(r, ss[0], t[..k]);
      AllFinishedMayFinish(r, ss[1..], t[k..]);
    }
  }

  lemma {:induction false} BrokeMayBreak(r: Reading, s: Stmt, t: seq<NodeId>)
    requires Executes(r, s, t, Broke)
    ensures MayBreak(s)
    decreases Size(s), 0
  {
    match s
    case If(_, th, el) =>
      if ExecutesAll(r, Sequence(th), t[1..], Broke) {
        AllBrokeMayBreak(r, Sequence(th), t[1..]);
      } else {
        AllBrokeMayBreak(r, Sequence(el), t[1..]);
      }
    case Compound(_, ss) => AllBrokeMayBreak(r, ss, t);
    case Loop(_, _, _) => LoopOutcome(r, s, t, Broke);
    case _ =>
  }

  lemma {:induction false} AllBrokeMayBreak(r: Reading, ss: seq<Stmt>, t: seq<NodeId>)
    requires ExecutesAll(r, ss, t, Broke)
    ensures MayBreakAll(ss)
    decreases SizeAll(ss), 1
  {
    if ss != [] {
      hide Executes, MayBreak, MayFinish;
      var abrupt, k := SplitRun(r, ss, t, Broke);
      if abrupt {
        BrokeMayBreak(r, ss[0], t);
      } else {
        FinishedMayFinish(r, ss[0], t[..k]);
        AllBrokeMayBreak(r, ss[1..], t[k..]);
      }
    }
  }

  /** In a clean tree, what may finish does in some run. */
  lemma {:induction false} MayFinishRuns(s: Stmt, c: Context) returns (t: seq<NodeId>)
    requires Regular(s, c) && Clean(s) && MayFinish(s)
    ensures Executes(InC, s, t, Normal)
    decreases Size(s), 0
  {
    match s
    case If(id, th, el) =>
      var u;
      if AllMayFinish(Sequence(th)) {
        u := BranchFinishes(Sequence(th), c.Within());
      } else {
        u := BranchFinishes(Sequence(el), c.Within());
      }
      t := [id] + u;
      assert t[1..] == u;
    case Loop(id, kind, b) =>
      t := [id];
      if kind.Do? {
        assert t[..0] == [];
        assert GoesRound(InC, s, t[..0]);
      }
    case Compound(_, ss) => t := [];
    case Switch(_, _) => t := SwitchFinishes(s, c);
    case _ => t := [s.id];
  }

  lemma {:induction false} SwitchFinishes(s: Stmt, c: Context) returns (t: seq<NodeId>)
    requires s.Switch? && Regular(s, c) && Clean(s) && MayFinish(s)
    ensures Executes(InC, s, t, Normal)
    decreases OptionSize(s.compound), 3
  {
    hide ExecutesAll, AllMayFinish, MayBreakAll, CleanAll;
    var ss := Sequence(s.compound);
    if Hollow(s) || !HasDefaultLabel(ss) {
      t := [s.id];
    } else {
      var i := LeavingLabel(ss);
      SmallerFrom(ss, i);
      RegularFrom(ss, AmongCases, i);
      FromLabelIsClean(ss, i);
      var u, o;
      if AllMayFinish(ss[i..]) {
        u := AllMayFinishRuns(ss[i..], AmongCases);
        t, o := LabelledRun(InC, s, i, u, Normal);
      } else {
        u := AllMayBreakRuns(ss[i..], AmongCases);
        t, o := LabelledRun(InC, s, i, u, Broke);
      }
    }
  }

  lemma {:induction false} BranchFinishes(ss: seq<Stmt>, c: Context) returns (t: seq<NodeId>)
    requires RegularAll(ss, c) && (Silent(ss) || CleanAll(ss)) && AllMayFinish(ss)
    ensures ExecutesAll(InC, ss, t, Normal)
    decreases SizeAll(ss), 2
  {
    if Silent(ss) {
      SilentRuns(ss, c);
      t := [];
    } else {
      t := AllMayFinishRuns(ss, c);
    }
  }

  lemma {:induction false} AllMayFinishRuns(ss: seq<Stmt>, c: Context) returns (t: seq<NodeId>)
    requires RegularAll(ss, c) && CleanAll(ss) && AllMayFinish(ss)
    ensures ExecutesAll(InC, ss, t, Normal)
    decreases SizeAll(ss), 1
  {
    t := [];
    if ss != [] {
      hide Executes, MayFinish, Clean, Regular;
      t := MayFinishRuns(ss[0], c);
      var u := AllMayFinishRuns(ss[1..], c);
      InOrder(InC, ss, t, u, Normal);
      t := t + u;
    }
  }

  /** In a clean tree, what may break does in some run. */
  lemma {:induction false} MayBreakRuns(s: Stmt, c: Context) returns (t: seq<NodeId>)
    requires Regular(s, c) && Clean(s) && MayBreak(s)
    ensures Executes(InC, s, t, Broke)
    decreases Size(s), 0
  {
    match s
    case If(id, th, el) =>
      var ss := Sequence(if MayBreakAll(Sequence(th)) then th else el);
      if Silent(ss) {
        SilentCannotBreak(ss, c.Within());
      }
      var u := AllMayBreakRuns(ss, c.Within());
      t := [id] + u;
      assert t[1..] == u;
    case Compound(_, ss) => t := AllMayBreakRuns(ss, c.Within());
    case Break(id) => t := [id];
  }

  lemma {:induction false} SilentCannotBreak(ss: seq<Stmt>, c: Context)
    requires RegularAll(ss, c) && Silent(ss)
    ensures !MayBreakAll(ss)
    decreases SizeAll(ss)
  {
    if ss != [] {
      assert Nodes(ss[0]) == [] && NodesOf(ss[1..]) == [];
      SilentCannotBreak(ss[1..], c);
      assert ss[0].Compound? && Size(ss[0]) == 1 + SizeAll(ss[0].children);
      SilentCannotBreak(ss[0].children, c.Within());
    }
  }

  lemma {:induction false} AllMayBreakRuns(ss: seq<Stmt>, c: Context) returns (t: seq<NodeId>)
    requires RegularAll(ss, c) && CleanAll(ss) && MayBreakAll(ss)
    ensures ExecutesAll(InC, ss, t, Broke)
    decreases SizeAll(ss), 1
  {
    hide Executes, MayFinish, MayBreak, Clean, Regular;
    if MayBreak(ss[0]) {
      t := MayBreakRuns(ss[0], c);
      SplitsSomewhere(InC, ss, t, Broke);
    } else {
      t := MayFinishRuns(ss[0], c);
      var u := AllMayBreakRuns(ss[1..], c);
      InOrder(InC, ss, t, u, Broke);
      t := t + u;
    }
  }

  // ------------------------------------------------------------------
  // Clean trees read alike
  // ------------------------------------------------------------------

  lemma {:induction false} ReadingsAgree(s: Stmt, c: Context, t: seq<NodeId>, o: Outcome)
    requires Regular(s, c) && Clean(s)
    ensures Executes(InC, s, t, o) <==> Executes(AsBuilt, s, t, o)
    decreases |t|, Size(s), 1
  {
    match s
    case If(_, th, el) =>
      if t != [] {
        BranchesAgree(Sequence(th), Sequence(el), c.Within(), t[1..], o);
      }
    case Loop(_, kind, b) =>
      if b.None? {
      } else if kind.Do? {
        EmptyDoIsWhile(s, t, o);
      } else {
        ReadingsAgreeOnLoop(s, t, o);
      }
    case Compound(_, ss) =>
      ReadingsAgreeOnAll(ss, c.Within(), t, o);
      if ExecutesAll(InC, ss, t, o) && o == Normal {
        AllFinishedMayFinish(InC, ss, t);
      }
    case Switch(_, b) =>
      if Braced(b) {
        SwitchesAgree(s, t, o);
      }
    case _ =>
  }

  lemma {:induction false} FromLabelIsClean(ss: seq<Stmt>, i: nat)
    requires i < |ss| && ss[i].Case? && CleanFromLabels(ss)
    ensures CleanAll(ss[i..])
    decreases i
  {
    if i > 0 {
      assert ss[1..][i - 1..] == ss[i..];
      FromLabelIsClean(ss[1..], i - 1);
    } else {
      assert ss[0..] == ss;
    }
  }

  lemma {:induction false} RegularFrom(ss: seq<Stmt>, c: Context, i: nat)
    requires i <= |ss| && RegularAll(ss, c)
    ensures RegularAll(ss[i..], c)
    decreases i
  {
    if i > 0 {
      assert ss[1..][i - 1..] == ss[i..];
      RegularFrom(ss[1..], c, i - 1);
    } else {
      assert ss[0..] == ss;
    }
  }

  lemma {:induction false} SwitchesAgree(s: Stmt, t: seq<NodeId>, o: Outcome)
    requires s.Switch? && Braced(s.compound) && RegularAll(Sequence(s.compound), AmongCases)
    requires CleanFromLabels(Sequence(s.compound))
    ensures Executes(InC, s, t, o) <==> Executes(AsBuilt, s, t, o)
    decreases |t|, Size(s), 0
  {
    if t != [] {
      hide ExecutesAll;
      var ss := Sequence(s.compound);
      forall i | 0 <= i < |ss| && ss[i].Case?
        ensures RunsFrom(InC, ss[i..], t[1..], o) <==> RunsFrom(AsBuilt, ss[i..], t[1..], o)
      {
        FromLabelIsClean(ss, i);
        RegularFrom(ss, AmongCases, i);
        ReadingsAgreeOnAll(ss[i..], AmongCases, t[1..], o);
        ReadingsAgreeOnAll(ss[i..], AmongCases, t[1..], Broke);
      }
    }
  }

  lemma {:induction false} BranchesAgree(a: seq<Stmt>, b: seq<Stmt>, c: Context, t: seq<NodeId>, o: Outcome)
    requires RegularAll(a, c) && RegularAll(b, c)
    requires (Silent(a) || CleanAll(a)) && (Silent(b) || CleanAll(b))
    requires Silent(a) || Silent(b) ==> a == [] || b == []
    ensures ExecutesAll(InC, a, t, o) || ExecutesAll(InC, b, t, o)
       <==> ExecutesAll(AsBuilt, a, t, o) || ExecutesAll(AsBuilt, b, t, o)
    decreases |t|, SizeAll(a) + SizeAll(b), 3
  {
    hide Executes, Silent, CleanAll, RegularAll;
    forall r
      ensures (Silent(a) && ExecutesAll(r, a, t, o)) || (Silent(b) && ExecutesAll(r, b, t, o)) ==>
        t == [] && o == Normal && (a == [] || b == [])
    {
      if Silent(a) && ExecutesAll(r, a, t, o) {
        SilentOnly(r, a, t, o);
      }
      if Silent(b) && ExecutesAll(r, b, t, o) {
        SilentOnly(r, b, t, o);
      }
    }
    if !Silent(a) {
      ReadingsAgreeOnAll(a, c, t, o);
    }
    if !Silent(b) {
      ReadingsAgreeOnAll(b, c, t, o);
    }
  }

  lemma {:induction false} ReadingsAgreeOnAll(ss: seq<Stmt>, c: Context, t: seq<NodeId>, o: Outcome)
    requires RegularAll(ss, c) && CleanAll(ss)
    ensures ExecutesAll(InC, ss, t, o) <==> ExecutesAll(AsBuilt, ss, t, o)
    decreases |t|, SizeAll(ss), 2
  {
    if ss != [] {
      hide Executes;
      ReadingsAgree(ss[0], c, t, o);
      forall k | 0 <= k <= |t|
        ensures GoesOn(InC, ss, t, k, o) <==> GoesOn(AsBuilt, ss, t, k, o)
      {
        ReadingsAgree(ss[0], c, t[..k], Normal);
        if Executes(InC, ss[0], t[..k], Normal) {
          FinishedMayFinish(InC, ss[0], t[..k]);
          ReadingsAgreeOnAll(ss[1..], c, t[k..], o);
        }
      }
      SplitsSomewhere(InC, ss, t, o);
      SplitsSomewhere(AsBuilt, ss, t, o);
    }
  }

  lemma {:induction false} ReadingsAgreeOnLoop(s: Stmt, t: seq<NodeId>, o: Outcome)
    requires s.Loop? && s.body.Some? && RegularAll(Sequence(s.body), InLoop) && CleanAll(Sequence(s.body))
    ensures ExecutesWhile(InC, s, t, o) <==> ExecutesWhile(AsBuilt, s, t, o)
    decreases |t|, Size(s), 0
  {
    if t != [] {
      hide ExecutesAll;
      ReadingsAgreeOnAll(Sequence(s.body), InLoop, t[1..], Broke);
      ReadingsAgreeOnAll(Sequence(s.body), InLoop, t[1..], Returned);
      forall k | 1 <= k <= |t|
        ensures GoesRound(InC, s, t[1..k]) <==> GoesRound(AsBuilt, s, t[1..k])
        ensures ExecutesWhile(InC, s, t[k..], o) <==> ExecutesWhile(AsBuilt, s, t[k..], o)
      {
        ReadingsAgreeOnAll(Sequence(s.body), InLoop, t[1..k], Normal);
        ReadingsAgreeOnAll(Sequence(s.body), InLoop, t[1..k], Continued);
        ReadingsAgreeOnLoop(s, t[k..], o);
      }
    }
  }

  lemma EmptyRound(r: Reading, s: Stmt, t: seq<NodeId>)
    requires s.Loop? && Sequence(s.body) == []
    ensures GoesRound(r, s, t) <==> t == []
    ensures !ExecutesAll(r, Sequence(s.body), t, Broke) && !ExecutesAll(r, Sequence(s.body), t, Returned)
  {
  }

  /** A `do` loop without a body is only its test, wherever it is entered. */
  lemma {:induction false} EmptyDoIsWhile(s: Stmt, t: seq<NodeId>, o: Outcome)
    requires s.Loop? && Sequence(s.body) == []
    ensures ExecutesDo(InC, s, t, o) <==> ExecutesWhile(AsBuilt, s, t, o)
    decreases |t|
  {
    hide GoesRound, ExecutesAll;
    EmptyRound(InC, s, t);
    if t != [] {
      EmptyDoIsWhile(s, t[1..], o);
      EmptyRound(InC, s, t[..0]);
      EmptyRound(AsBuilt, s, t[1..]);
      EmptyRound(AsBuilt, s, t[1..1]);
      assert |t| == 1 ==> t == [t[0]];
      if ExecutesDo(InC, s, t, o) {
        var k :| 0 <= k < |t| && GoesRound(InC, s, t[..k]) && t[k] == s.id
                 && ((k + 1 == |t| && o == Normal) || ExecutesDo(InC, s, t[k + 1..], o));
        EmptyRound(InC, s, t[..k]);
      }
      if ExecutesWhile(AsBuilt, s, t, o) && !(t == [s.id] && o == Normal) {
        var k :| 1 <= k <= |t| && GoesRound(AsBuilt, s, t[1..k]) && ExecutesWhile(AsBuilt, s, t[k..], o);
        EmptyRound(AsBuilt, s, t[1..k]);
      }
    }
  }

  lemma {:induction false} StructuredIsClean(s: Stmt, c: Context)
    requires Structured(s, c)
    ensures Regular(s, c) && Clean(s) && Nodes(s) != []
    decreases Size(s), 0
  {
    match s
    case If(_, th, el) =>
      AllStructuredIsClean(Sequence(th), c.Within());
      AllStructuredIsClean(Sequence(el), c.Within());
    case Loop(_, _, b) => AllStructuredIsClean(Sequence(b), InLoop);
    case Switch(_, b) => AllStructuredIsClean(Sequence(b), if Braced(b) then AmongCases else InCase);
    case _ =>
  }

  lemma {:induction false} AllStructuredIsClean(ss: seq<Stmt>, c: Context)
    requires StructuredAll(ss, c)
    ensures RegularAll(ss, c) && CleanAll(ss) && CleanFromLabels(ss) && (Silent(ss) ==> ss == [])
    decreases SizeAll(ss), 1
  {
    if ss != [] {
      StructuredIsClean(ss[0], c);
      AllStructuredIsClean(ss[1..], c);
    }
  }

  /** Plain statements, if/else, while and for, `switch`, return, and break and
      continue in their places are always faithfully built. */
  lemma StructuredIsFaithful(body: seq<Stmt>)
    requires StructuredAll(body, AtTop)
    ensures Faithful(body)
  {
    AllStructuredIsClean(body, AtTop);
  }
}
