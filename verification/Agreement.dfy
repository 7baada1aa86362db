/** The converse of the comparison of readings: a body whose complete runs are
    the same in both readings passes the check on the tree. */
module Agreement {
  import opened Collections
  import opened Ast
  import opened Runs
  import opened Readings

  /** In the language every run of the statement ends in one of the ways `ends`,
      and on the runs that end so the readings agree. */
  ghost predicate Alike(s: Stmt, ends: set<Outcome>)
  {
    forall t, o :: (Executes(InC, s, t, o) ==> o in ends)
                && (o in ends ==> (Executes(InC, s, t, o) <==> Executes(AsBuilt, s, t, o)))
  }

  ghost predicate AlikeAll(ss: seq<Stmt>, ends: set<Outcome>)
  {
    forall t, o :: (ExecutesAll(InC, ss, t, o) ==> o in ends)
                && (o in ends ==> (ExecutesAll(InC, ss, t, o) <==> ExecutesAll(AsBuilt, ss, t, o)))
  }

  ghost predicate NeverFinishes(s: Stmt)
  {
    forall t :: !Executes(InC, s, t, Normal)
  }

  ghost predicate NeverFinishesAll(ss: seq<Stmt>)
  {
    forall t :: !ExecutesAll(InC, ss, t, Normal)
  }

  function Other(r: Reading): (q: Reading)
    ensures {r, q} == {InC, AsBuilt}
  {
    if r.InC? then AsBuilt else InC
  }

  // ----- Lists -----

  lemma NoCommonMember(t: seq<NodeId>, a: seq<NodeId>, b: seq<NodeId>)
    requires Within(t, a) && Within(t, b) && forall x :: x in a ==> x !in b
    ensures t == []
  {
    if t != [] {
      HasMember(t);
    }
  }

  /** An abrupt run of a list that stays in its first statement is a run of that
      statement. */
  lemma AbruptHead(r: Reading, ss: seq<Stmt>, t: seq<NodeId>, o: Outcome)
    requires ss != [] && NoRepeats(NodesOf(ss)) && o != Normal && Within(t, Nodes(ss[0]))
    ensures ExecutesAll(r, ss, t, o) <==> Executes(r, ss[0], t, o)
  {
    hide Executes, Nodes, NodesOf;
    ListDistinct(ss);
    SplitsSomewhere(r, ss, t, o);
    if k :| 0 <= k <= |t| && GoesOn(r, ss, t, k, o) {
      AllRunsWithin(r, ss[1..], t[k..], o);
      assert forall x :: x in t[k..] ==> x in t;
      NoCommonMember(t[k..], Nodes(ss[0]), NodesOf(ss[1..]));
      EmptyRun(r, ss[1..], o);
    }
  }

  /** A first statement that never finishes takes the whole run. */
  lemma StuckHeadAlike(ss: seq<Stmt>, ends: set<Outcome>)
    requires ss != [] && NoRepeats(NodesOf(ss)) && AlikeAll(ss, ends) && NeverFinishes(ss[0])
    ensures Alike(ss[0], ends - {Normal})
  {
    hide Executes, ExecutesAll, Nodes, NodesOf;
    forall r, t, o | o != Normal && Executes(r, ss[0], t, o)
      ensures r.InC? ==> o in ends
      ensures o in ends ==> Executes(Other(r), ss[0], t, o)
    {
      RunsWithin(r, ss[0], t, o);
      AbruptHead(r, ss, t, o);
      AbruptHead(Other(r), ss, t, o);
    }
    BothWays(ss[0], ends - {Normal});
  }

  lemma BothWays(s: Stmt, ends: set<Outcome>)
    requires forall r, t, o :: Executes(r, s, t, o) ==>
               (r.InC? ==> o in ends) && (o in ends ==> Executes(Other(r), s, t, o))
    ensures Alike(s, ends)
  {
    hide Executes;
    assert Other(InC) == AsBuilt && Other(AsBuilt) == InC;
  }

  lemma BothWaysAll(ss: seq<Stmt>, ends: set<Outcome>)
    requires forall r, t, o :: ExecutesAll(r, ss, t, o) ==>
               (r.InC? ==> o in ends) && (o in ends ==> ExecutesAll(Other(r), ss, t, o))
    ensures AlikeAll(ss, ends)
  {
    hide ExecutesAll;
    assert Other(InC) == AsBuilt && Other(AsBuilt) == InC;
  }

  /** A run of a list splits in one way only between its first statement and the
      others; so if both readings have it, both have the two parts. */
  lemma CrossOver(r: Reading, q: Reading, ss: seq<Stmt>, t: seq<NodeId>, u: seq<NodeId>, o: Outcome)
    requires ss != [] && NoRepeats(NodesOf(ss))
    requires Executes(r, ss[0], t, Normal) && ExecutesAll(r, ss[1..], u, o)
    requires ExecutesAll(q, ss, t + u, o)
    ensures Executes(q, ss[0], t, Normal) && ExecutesAll(q, ss[1..], u, o)
  {
    hide Executes, ExecutesAll, Nodes, NodesOf;
    var c := t + u;
    ListDistinct(ss);
    RunsWithin(r, ss[0], t, Normal);
    AllRunsWithin(r, ss[1..], u, o);
    SplitsSomewhere(q, ss, c, o);
    if o != Normal && Executes(q, ss[0], c, o) {
      RunsWithin(q, ss[0], c, o);
      assert forall x :: x in u ==> x in c;
      NoCommonMember(u, Nodes(ss[0]), NodesOf(ss[1..]));
      EmptyRun(r, ss[1..], o);
    } else {
      var k :| 0 <= k <= |c| && GoesOn(q, ss, c, k, o);
      RunsWithin(q, ss[0], c[..k], Normal);
      AllRunsWithin(q, ss[1..], c[k..], o);
      SplitsThere(c, k, t, u, Nodes(ss[0]), NodesOf(ss[1..]));
    }
  }

  lemma SplitsThere(c: seq<NodeId>, k: int, t: seq<NodeId>, u: seq<NodeId>, a: seq<NodeId>, b: seq<NodeId>)
    requires c == t + u && 0 <= k <= |c| && Within(t, a) && Within(u, b) && Within(c[..k], a) && Within(c[k..], b)
    requires forall x :: x in a ==> x !in b
    ensures c[..k] == t && c[k..] == u
  {
    if k < |t| {
      TailMember(c, k);
      MemberAt(t, k);
    } else if k > |t| {
      FrontMember(c, k, |t|);
    }
  }

  lemma MemberAt(t: seq<NodeId>, i: nat)
    requires i < |t|
    ensures t[i] in t
  {
  }

  lemma TailMember(c: seq<NodeId>, k: nat)
    requires k < |c|
    ensures c[k] in c[k..]
  {
    assert c[k..][0] == c[k];
  }

  lemma FrontMember(c: seq<NodeId>, k: nat, i: nat)
    requires i < k <= |c|
    ensures c[i] in c[..k]
  {
    assert c[..k][i] == c[i];
  }

  /** When the first statement can finish, a list that reads alike does so part by part. */
  lemma PartsAlike(ss: seq<Stmt>, c: Context, t: seq<NodeId>, ends: set<Outcome>)
    requires ss != [] && RegularAll(ss, c) && NoRepeats(NodesOf(ss)) && AlikeAll(ss, ends)
    requires Executes(InC, ss[0], t, Normal)
    ensures Alike(ss[0], ends + {Normal}) && AlikeAll(ss[1..], ends)
  {
    hide Executes, ExecutesAll, Nodes, NodesOf, Regular;
    var u, p := SomeRunOfAll(ss[1..], c);
    InOrder(InC, ss, t, u, p);
    CrossOver(InC, AsBuilt, ss, t, u, p);
    forall r
      ensures Executes(r, ss[0], t, Normal) && ExecutesAll(r, ss[1..], u, p)
    {
      assert r == InC || r == AsBuilt;
    }
    FirstAlike(ss, u, p, ends);
    RestAlike(ss, t, ends);
  }

  lemma FirstAlike(ss: seq<Stmt>, u: seq<NodeId>, p: Outcome, ends: set<Outcome>)
    requires ss != [] && NoRepeats(NodesOf(ss)) && AlikeAll(ss, ends)
    requires p in ends && forall r :: ExecutesAll(r, ss[1..], u, p)
    ensures Alike(ss[0], ends + {Normal})
  {
    hide Executes, ExecutesAll, Nodes, NodesOf;
    forall r, v, o | Executes(r, ss[0], v, o)
      ensures r.InC? ==> o in ends + {Normal}
      ensures o in ends + {Normal} ==> Executes(Other(r), ss[0], v, o)
    {
      if o == Normal {
        InOrder(r, ss, v, u, p);
        CrossOver(r, Other(r), ss, v, u, p);
      } else {
        RunsWithin(r, ss[0], v, o);
        AbruptHead(r, ss, v, o);
        AbruptHead(Other(r), ss, v, o);
      }
    }
    BothWays(ss[0], ends + {Normal});
  }

  lemma RestAlike(ss: seq<Stmt>, t: seq<NodeId>, ends: set<Outcome>)
    requires ss != [] && NoRepeats(NodesOf(ss)) && AlikeAll(ss, ends)
    requires forall r :: Executes(r, ss[0], t, Normal)
    ensures AlikeAll(ss[1..], ends)
  {
    hide Executes, ExecutesAll, Nodes, NodesOf;
    forall r, v, o | ExecutesAll(r, ss[1..], v, o)
      ensures r.InC? ==> o in ends
      ensures o in ends ==> ExecutesAll(Other(r), ss[1..], v, o)
    {
      InOrder(r, ss, t, v, o);
      if o in ends {
        CrossOver(r, Other(r), ss, t, v, o);
      }
    }
    BothWaysAll(ss[1..], ends);
  }

  lemma {:induction false} AlikeIsClean(ss: seq<Stmt>, c: Context, ends: set<Outcome>)
    requires RegularAll(ss, c) && NoRepeats(NodesOf(ss)) && AlikeAll(ss, ends)
    ensures CleanAll(ss)
    decreases SizeAll(ss), 1
  {
    if ss != [] {
      hide Executes, ExecutesAll, Nodes, NodesOf, Clean, MayFinish, Regular;
      ListDistinct(ss);
      if NeverFinishes(ss[0]) {
        StuckHeadAlike(ss, ends);
        AlikeStepIsClean(ss[0], c, ends - {Normal});
        NeverFinishesIsKnown(ss[0], c);
      } else {
        var t :| Executes(InC, ss[0], t, Normal);
        PartsAlike(ss, c, t, ends);
        AlikeStepIsClean(ss[0], c, ends + {Normal});
        AlikeIsClean(ss[1..], c, ends);
      }
    }
  }

  lemma NeverFinishesIsKnown(s: Stmt, c: Context)
    requires Regular(s, c) && Clean(s) && NeverFinishes(s)
    ensures !MayFinish(s)
  {
    hide Executes;
    if MayFinish(s) {
      var t := MayFinishRuns(s, c);
    }
  }

  lemma NeverFinishesAllIsKnown(ss: seq<Stmt>, c: Context)
    requires RegularAll(ss, c) && CleanAll(ss) && NeverFinishesAll(ss)
    ensures !AllMayFinish(ss)
  {
    hide ExecutesAll;
    if AllMayFinish(ss) {
      var t := AllMayFinishRuns(ss, c);
    }
  }

  // ----- Statements -----

  lemma {:induction false} AlikeStepIsClean(s: Stmt, c: Context, ends: set<Outcome>)
    requires Regular(s, c) && NoRepeats(Nodes(s)) && Alike(s, ends)
    ensures Clean(s)
    decreases Size(s), 0
  {
    match s
    case If(_, _, _) => AlikeIfIsClean(s, c, ends);
    case Loop(_, kind, b) =>
      LoopDistinct(s);
      if b.None? {
      } else if kind.Do? {
        AlikeDoIsEmpty(s, c, ends);
      } else {
        LoopBodyAlike(s, ends);
        AlikeIsClean(Sequence(b), InLoop, BodyEnds(ends));
      }
    case Compound(_, ss) =>
      CompoundAlike(s, ends);
      AlikeIsClean(ss, c.Within(), ends - {Normal});
      NeverFinishesAllIsKnown(ss, c.Within());
    case Switch(_, b) =>
      if Braced(b) {
        AlikeSwitchIsClean(s, ends);
      }
    case _ =>
  }

  lemma {:induction false} AlikeIfIsClean(s: Stmt, c: Context, ends: set<Outcome>)
    requires s.If? && Regular(s, c) && NoRepeats(Nodes(s)) && Alike(s, ends)
    ensures Clean(s)
    decreases OptionSize(s.thenBranch) + OptionSize(s.elseBranch), 2
  {
    hide Executes, Silent, NodesOf, CleanAll, RegularAll;
    IfDistinct(s);
    BranchesAlike(s, ends);
    assert Branch(s, true) == Sequence(s.thenBranch) && Branch(s, false) == Sequence(s.elseBranch);
    if !Silent(Sequence(s.thenBranch)) {
      AlikeIsClean(Sequence(s.thenBranch), c.Within(), ends);
    }
    if !Silent(Sequence(s.elseBranch)) {
      AlikeIsClean(Sequence(s.elseBranch), c.Within(), ends);
    }
    SilentBranches(s, c, ends);
  }

  lemma CompoundAlike(s: Stmt, ends: set<Outcome>)
    requires s.Compound? && Alike(s, ends)
    ensures AlikeAll(s.children, ends - {Normal}) && NeverFinishesAll(s.children)
  {
    hide ExecutesAll;
    forall t, o
      ensures Executes(InC, s, t, o) <==> ExecutesAll(InC, s.children, t, o)
      ensures Executes(AsBuilt, s, t, o) <==> ExecutesAll(AsBuilt, s.children, t, o) && o != Normal
    {
    }
  }

  // ----- Branches -----

  /** A run with nodes of one branch only went through that branch. */
  lemma BranchOnly(r: Reading, s: Stmt, first: bool, t: seq<NodeId>, o: Outcome)
    requires s.If? && NoRepeats(Nodes(s)) && t != [] && Within(t, NodesOf(Branch(s, first)))
    ensures Executes(r, s, [s.id] + t, o) <==> ExecutesAll(r, Branch(s, first), t, o)
  {
    hide ExecutesAll, Nodes, NodesOf;
    IfDistinct(s);
    assert ([s.id] + t)[1..] == t;
    if ExecutesAll(r, Branch(s, !first), t, o) {
      AllRunsWithin(r, Branch(s, !first), t, o);
      NoCommonMember(t, NodesOf(Branch(s, first)), NodesOf(Branch(s, !first)));
    }
  }

  lemma BranchesAlike(s: Stmt, ends: set<Outcome>)
    requires s.If? && NoRepeats(Nodes(s)) && Alike(s, ends)
    ensures forall first :: !Silent(Branch(s, first)) ==> AlikeAll(Branch(s, first), ends)
  {
    hide Executes, ExecutesAll, Nodes, NodesOf, Silent;
    forall first | !Silent(Branch(s, first))
      ensures AlikeAll(Branch(s, first), ends)
    {
      forall r, t, o | ExecutesAll(r, Branch(s, first), t, o)
        ensures r.InC? ==> o in ends
        ensures o in ends ==> ExecutesAll(Other(r), Branch(s, first), t, o)
      {
        if t == [] {
          EmptyRun(r, Branch(s, first), o);
        }
        AllRunsWithin(r, Branch(s, first), t, o);
        BranchOnly(r, s, first, t, o);
        BranchOnly(Other(r), s, first, t, o);
      }
      BothWaysAll(Branch(s, first), ends);
    }
  }

  /** If one branch is only empty braces, the other reading needs a branch that
      is really empty. */
  lemma SilentBranches(s: Stmt, c: Context, ends: set<Outcome>)
    requires s.If? && Regular(s, c) && Alike(s, ends)
    ensures Silent(Sequence(s.thenBranch)) || Silent(Sequence(s.elseBranch)) ==>
      Sequence(s.thenBranch) == [] || Sequence(s.elseBranch) == []
  {
    var a, b := Sequence(s.thenBranch), Sequence(s.elseBranch);
    if Silent(a) || Silent(b) {
      var t := [s.id];
      assert t[1..] == [];
      if Silent(a) {
        SilentRuns(a, c.Within());
      } else {
        SilentRuns(b, c.Within());
      }
      assert Executes(InC, s, t, Normal);
      assert Executes(AsBuilt, s, t, Normal);
      if ExecutesAll(AsBuilt, a, [], Normal) {
        EmptyRun(AsBuilt, a, Normal);
      } else {
        EmptyRun(AsBuilt, b, Normal);
      }
    }
  }

  // ----- Loops -----

  /** A run that meets the loop's test once and then nodes of the body only. */
  lemma WhileOnce(r: Reading, s: Stmt, t: seq<NodeId>, b: Outcome)
    requires s.Loop? && s.id !in t && t != [] && (b == Broke || b == Returned)
    ensures ExecutesWhile(r, s, [s.id] + t, if b == Broke then Normal else Returned)
       <==> ExecutesAll(r, Sequence(s.body), t, b)
  {
    hide ExecutesAll, GoesRound;
    var c := [s.id] + t;
    assert c[1..] == t;
    var o := if b == Broke then Normal else Returned;
    if ExecutesWhile(r, s, c, o) && !ExecutesAll(r, Sequence(s.body), t, b) {
      HeadersOnly(r, s, c, o);
    }
  }

  /** A run that is more than one test and leaves by no part of the body meets
      the test again. */
  lemma HeadersOnly(r: Reading, s: Stmt, c: seq<NodeId>, o: Outcome)
    requires s.Loop? && ExecutesWhile(r, s, c, o) && |c| > 1
    requires !(o == Normal && ExecutesAll(r, Sequence(s.body), c[1..], Broke))
    requires !(o == Returned && ExecutesAll(r, Sequence(s.body), c[1..], Returned))
    ensures s.id in c[1..]
  {
    hide ExecutesAll, GoesRound;
    var k :| 1 <= k <= |c| && GoesRound(r, s, c[1..k]) && ExecutesWhile(r, s, c[k..], o);
    assert c[k..][0] == c[k] && c[1..][k - 1] == c[k];
  }

  /** A run that meets the test twice, with nodes of the body between. */
  lemma WhileTwice(r: Reading, s: Stmt, t: seq<NodeId>)
    requires s.Loop? && NoRepeats(Nodes(s)) && Within(t, NodesOf(Sequence(s.body)))
    ensures ExecutesWhile(r, s, [s.id] + t + [s.id], Normal) <==> GoesRound(r, s, t)
  {
    hide ExecutesAll, ExecutesWhile, GoesRound, Nodes, NodesOf;
    LoopDistinct(s);
    var c := [s.id] + t + [s.id];
    assert c[1..|t| + 1] == t;
    if GoesRound(r, s, t) {
      OneTest(r, s, c, |t| + 1);
    }
    if ExecutesWhile(r, s, c, Normal) {
      var k := SecondTest(r, s, c);
      assert forall i :: 0 <= i < |t| ==> t[i] in t && c[i + 1] == t[i];
    }
  }

  /** Once round, and the test that ends the loop. */
  lemma OneTest(r: Reading, s: Stmt, c: seq<NodeId>, k: nat)
    requires s.Loop? && 1 <= k < |c| && c[0] == s.id && c[k..] == [s.id] && GoesRound(r, s, c[1..k])
    ensures ExecutesWhile(r, s, c, Normal)
  {
    hide ExecutesAll, GoesRound;
    assert ExecutesWhile(r, s, c[k..], Normal);
  }

  /** A run that ends with a test, and has gone round, comes to the test a
      second time. */
  lemma SecondTest(r: Reading, s: Stmt, c: seq<NodeId>) returns (k: nat)
    requires s.Loop? && NoRepeats(Nodes(s)) && ExecutesWhile(r, s, c, Normal) && |c| > 1 && c[|c| - 1] == s.id
    ensures 1 <= k < |c| && c[k] == s.id && GoesRound(r, s, c[1..k])
  {
    hide ExecutesAll, GoesRound, Nodes, NodesOf;
    LoopDistinct(s);
    LastInRest(c);
    if ExecutesAll(r, Sequence(s.body), c[1..], Broke) {
      AllRunsWithin(r, Sequence(s.body), c[1..], Broke);
    }
    k :| 1 <= k <= |c| && GoesRound(r, s, c[1..k]) && ExecutesWhile(r, s, c[k..], Normal);
    TestsFirst(r, s, c, k);
  }

  lemma LastInRest(c: seq<NodeId>)
    requires |c| > 1
    ensures c[|c| - 1] in c[1..]
  {
    assert c[1..][|c| - 2] == c[|c| - 1];
  }

  lemma TestsFirst(r: Reading, s: Stmt, c: seq<NodeId>, k: nat)
    requires s.Loop? && k <= |c| && ExecutesWhile(r, s, c[k..], Normal)
    ensures k < |c| && c[k] == s.id
  {
    hide ExecutesAll, GoesRound;
    assert c[k..] != [] && c[k..][0] == s.id;
  }

  /** How the body of a loop may end when the loop ends in one of the ways `ends`. */
  function BodyEnds(ends: set<Outcome>): set<Outcome>
  {
    {Normal, Continued, Broke} + ends * {Returned}
  }

  lemma LoopBodyAlike(s: Stmt, ends: set<Outcome>)
    requires s.Loop? && !s.kind.Do? && s.body.Some? && NoRepeats(Nodes(s)) && Alike(s, ends)
    ensures AlikeAll(Sequence(s.body), BodyEnds(ends))
  {
    hide Executes, ExecutesAll, ExecutesWhile, GoesRound, Nodes, NodesOf;
    LoopDistinct(s);
    OneTestFinishes(s);
    forall r, t, o
      ensures Executes(r, s, t, o) <==> ExecutesWhile(r, s, t, o)
    {
      WhileAsLoop(r, s, t, o);
    }
    forall r, t, o | ExecutesAll(r, Sequence(s.body), t, o)
      ensures r.InC? ==> o in BodyEnds(ends)
      ensures o in BodyEnds(ends) ==> ExecutesAll(Other(r), Sequence(s.body), t, o)
    {
      AllRunsWithin(r, Sequence(s.body), t, o);
      if o == Broke || o == Returned {
        if t == [] {
          EmptyRun(r, Sequence(s.body), o);
        }
        WhileOnce(r, s, t, o);
        WhileOnce(Other(r), s, t, o);
      } else {
        WhileTwice(r, s, t);
        WhileTwice(Other(r), s, t);
        RoundIsRun(r, s, t);
        RoundShown(r, Other(r), s, t, o);
      }
    }
    BothWaysAll(Sequence(s.body), BodyEnds(ends));
  }

  lemma WhileAsLoop(r: Reading, s: Stmt, t: seq<NodeId>, o: Outcome)
    requires s.Loop? && !s.kind.Do? && s.body.Some?
    ensures Executes(r, s, t, o) <==> ExecutesWhile(r, s, t, o)
  {
    hide ExecutesWhile;
  }

  lemma RoundIsRun(r: Reading, s: Stmt, t: seq<NodeId>)
    requires s.Loop?
    ensures GoesRound(r, s, t) <==>
      ExecutesAll(r, Sequence(s.body), t, Normal) || ExecutesAll(r, Sequence(s.body), t, Continued)
  {
  }

  lemma RoundShown(r: Reading, q: Reading, s: Stmt, t: seq<NodeId>, o: Outcome)
    requires s.Loop? && NoRepeats(NodesOf(Sequence(s.body))) && ExecutesAll(r, Sequence(s.body), t, o) && GoesRound(q, s, t)
    ensures ExecutesAll(q, Sequence(s.body), t, o)
  {
    hide ExecutesAll, NodesOf;
    RoundIsRun(q, s, t);
    AllOutcomeShown(r, Sequence(s.body), t, o);
    if ExecutesAll(q, Sequence(s.body), t, Normal) {
      AllOutcomeShown(q, Sequence(s.body), t, Normal);
    } else {
      AllOutcomeShown(q, Sequence(s.body), t, Continued);
    }
  }

  lemma HeadersFirst(r: Reading, s: Stmt, t: seq<NodeId>, o: Outcome)
    requires s.Loop? && ExecutesWhile(r, s, t, o)
    ensures s.id in t
  {
    assert t[0] == s.id;
  }

  lemma OneTestFinishes(s: Stmt)
    requires s.Loop? && !s.kind.Do?
    ensures Executes(InC, s, [s.id], Normal)
  {
  }

  /** A `do` loop that reads alike has no body at all: one that never finishes
      would return from its body, without the test that the builder puts first. */
  lemma AlikeDoIsEmpty(s: Stmt, c: Context, ends: set<Outcome>)
    requires s.Loop? && s.kind.Do? && s.body.Some? && Regular(s, c) && NoRepeats(Nodes(s)) && Alike(s, ends)
    ensures Sequence(s.body) == []
  {
    hide ExecutesAll, GoesRound, Nodes, NodesOf;
    LoopDistinct(s);
    var t, o := SomeRunOfDo(s, c);
    if o == Returned && Normal !in ends {
      AllRunsWithin(InC, Sequence(s.body), t, Returned);
      assert Executes(AsBuilt, s, t, Returned);
      HeadersFirst(AsBuilt, s, t, Returned);
    } else {
      FinishingDoIsEmpty(s, ends);
    }
  }

  lemma FinishingDoIsEmpty(s: Stmt, ends: set<Outcome>)
    requires s.Loop? && s.kind.Do? && s.body.Some? && NoRepeats(Nodes(s)) && Alike(s, ends) && Normal in ends
    ensures Sequence(s.body) == []
  {
    hide ExecutesAll, GoesRound, Nodes, NodesOf;
    LoopDistinct(s);
    var one, two := [s.id], [s.id, s.id];
    assert Executes(AsBuilt, s, one, Normal);
    assert ExecutesDo(InC, s, one, Normal);
    OnlyTests(s);
    assert two[..0] == [] && two[1..] == one && two[0] == s.id;
    assert GoesRound(InC, s, two[..0]) && ExecutesDo(InC, s, two[1..], Normal);
    assert Executes(InC, s, two, Normal);
    assert ExecutesWhile(AsBuilt, s, two, Normal);
    TwoTests(s, two);
  }

  /** A `do` loop with a run of its test alone has a body that runs without nodes. */
  lemma OnlyTests(s: Stmt)
    requires s.Loop? && NoRepeats(Nodes(s)) && ExecutesDo(InC, s, [s.id], Normal)
    ensures GoesRound(InC, s, [])
  {
    hide ExecutesAll, GoesRound, Nodes, NodesOf;
    LoopDistinct(s);
    var t := [s.id];
    if ExecutesAll(InC, Sequence(s.body), t, Broke) {
      MemberAt(t, 0);
      AllRunsWithin(InC, Sequence(s.body), t, Broke);
    } else {
      var k :| 0 <= k < |t| && GoesRound(InC, s, t[..k]) && t[k] == s.id;
      assert t[..k] == [];
    }
  }

  lemma TwoTests(s: Stmt, t: seq<NodeId>)
    requires s.Loop? && NoRepeats(Nodes(s)) && t == [s.id, s.id] && ExecutesWhile(AsBuilt, s, t, Normal)
    ensures Sequence(s.body) == []
  {
    hide ExecutesAll, GoesRound, Nodes, NodesOf;
    LoopDistinct(s);
    if ExecutesAll(AsBuilt, Sequence(s.body), t[1..], Broke) {
      MemberAt(t[1..], 0);
      AllRunsWithin(AsBuilt, Sequence(s.body), t[1..], Broke);
    } else {
      var k :| 1 <= k <= |t| && GoesRound(AsBuilt, s, t[1..k]) && ExecutesWhile(AsBuilt, s, t[k..], Normal);
      RoundIsRun(AsBuilt, s, t[1..k]);
      if k == 1 {
        assert t[1..k] == [];
        if ExecutesAll(AsBuilt, Sequence(s.body), [], Normal) {
          EmptyRun(AsBuilt, Sequence(s.body), Normal);
        } else {
          EmptyRun(AsBuilt, Sequence(s.body), Continued);
        }
      }
    }
  }

  // ----- Switches -----

  /** How a group may end when the `switch` ends in one of the ways `ends`. */
  function CaseEnds(ends: set<Outcome>): set<Outcome>
  {
    (if Normal in ends then {Normal, Broke} else {}) + ends * {Returned}
  }

  /** A run from a label on starts with the label. */
  lemma LabelFirst(r: Reading, ss: seq<Stmt>, t: seq<NodeId>, o: Outcome)
    requires ss != [] && ss[0].Case? && ExecutesAll(r, ss, t, o)
    ensures t != [] && t[0] == ss[0].id
  {
    var abrupt, k := SplitRun(r, ss, t, o);
    assert !abrupt && t[..k] == [ss[0].id];
  }

  lemma LabelsDistinct(ss: seq<Stmt>, i: nat, j: nat)
    requires NoRepeats(NodesOf(ss)) && i < j < |ss| && ss[i].Case? && ss[j].Case?
    ensures ss[i].id != ss[j].id
  {
    hide NodesOf;
    assert ss == ss[..i] + ss[i..];
    NodesOfAppend(ss[..i], ss[i..]);
    PartsDistinct(NodesOf(ss[..i]), NodesOf(ss[i..]));
    ListDistinct(ss[i..]);
    assert ss[i..][0] == ss[i] && ss[i..][1..] == ss[i + 1..] && ss[i..][1..][j - i - 1] == ss[j];
    NodeOfChild(ss[i + 1..], j - i - 1);
    assert ss[i].id in Nodes(ss[i]) && ss[j].id in Nodes(ss[j]);
    assert ss[j].id in NodesOf(ss[i + 1..]);
  }

  lemma {:induction false} NodeOfChild(ss: seq<Stmt>, j: nat)
    requires j < |ss|
    ensures Within(Nodes(ss[j]), NodesOf(ss))
    decreases j
  {
    if j > 0 {
      hide Nodes;
      NodeOfChild(ss[1..], j - 1);
    }
  }

  /** A run of a `switch` that starts with a label is a run from that label on. */
  lemma LabelOnly(r: Reading, s: Stmt, i: nat, t: seq<NodeId>, o: Outcome) returns (p: Outcome)
    requires s.Switch? && NoRepeats(NodesOf(Sequence(s.compound))) && i < |Sequence(s.compound)|
    requires Sequence(s.compound)[i].Case? && t != [] && t[0] == Sequence(s.compound)[i].id
    requires Executes(r, s, [s.id] + t, o)
    ensures ExecutesAll(r, Sequence(s.compound)[i..], t, p) && Caught(p) == o
  {
    hide ExecutesAll, NodesOf;
    var ss := Sequence(s.compound);
    assert ([s.id] + t)[1..] == t;
    var j :| 0 <= j < |ss| && ss[j].Case? && RunsFrom(r, ss[j..], t, o);
    p := if o == Normal && !ExecutesAll(r, ss[j..], t, Normal) then Broke else o;
    LabelFirst(r, ss[j..], t, p);
    if i < j {
      LabelsDistinct(ss, i, j);
    } else if j < i {
      LabelsDistinct(ss, j, i);
    }
  }

  lemma CasesAlike(s: Stmt, ends: set<Outcome>, i: nat)
    requires s.Switch? && Braced(s.compound) && RegularAll(Sequence(s.compound), AmongCases)
    requires NoRepeats(Nodes(s)) && Alike(s, ends) && i < |Sequence(s.compound)| && Sequence(s.compound)[i].Case?
    ensures AlikeAll(Sequence(s.compound)[i..], CaseEnds(ends))
  {
    hide Executes, ExecutesAll, Nodes, NodesOf, Regular, RegularAll;
    var ss := Sequence(s.compound);
    SwitchDistinct(s, i);
    RegularFrom(ss, AmongCases, i);
    forall r, t, p | ExecutesAll(r, ss[i..], t, p)
      ensures r.InC? ==> p in CaseEnds(ends)
      ensures p in CaseEnds(ends) ==> ExecutesAll(Other(r), ss[i..], t, p)
    {
      NoStrayJumpsInAll(r, ss[i..], AmongCases, t, p);
      LabelFirst(r, ss[i..], t, p);
      var u, o := LabelledRun(r, s, i, t, p);
      if o in ends {
        var q := LabelOnly(Other(r), s, i, t, o);
        AllOutcomeShown(r, ss[i..], t, p);
        AllOutcomeShown(Other(r), ss[i..], t, q);
      }
    }
    BothWaysAll(ss[i..], CaseEnds(ends));
  }

  lemma {:induction false} AlikeSwitchIsClean(s: Stmt, ends: set<Outcome>)
    requires s.Switch? && Braced(s.compound) && RegularAll(Sequence(s.compound), AmongCases)
    requires NoRepeats(Nodes(s)) && Alike(s, ends)
    ensures Clean(s)
    decreases OptionSize(s.compound), 2
  {
    hide Executes, ExecutesAll, Nodes, NodesOf, RegularAll, CleanAll;
    var ss := Sequence(s.compound);
    forall i | 0 <= i < |ss| && ss[i].Case?
      ensures CleanAll(ss[i..])
    {
      CasesAlike(s, ends, i);
      SwitchDistinct(s, i);
      RegularFrom(ss, AmongCases, i);
      SmallerFrom(ss, i);
      AlikeIsClean(ss[i..], AmongCases, CaseEnds(ends));
    }
    EachLabelClean(ss);
  }

  lemma {:induction false} EachLabelClean(ss: seq<Stmt>)
    requires forall i :: 0 <= i < |ss| && ss[i].Case? ==> CleanAll(ss[i..])
    ensures CleanFromLabels(ss)
    decreases |ss|
  {
    hide CleanAll;
    if ss != [] {
      assert ss[0..] == ss;
      forall i | 0 <= i < |ss[1..]| && ss[1..][i].Case?
        ensures CleanAll(ss[1..][i..])
      {
        assert ss[1..][i..] == ss[i + 1..] && ss[i + 1].Case?;
      }
      EachLabelClean(ss[1..]);
    }
  }

  // ----- Whole bodies -----

  /** A body with distinct nodes that has the same complete runs in both readings
      is clean. */
  lemma AgreementMeansClean(body: seq<Stmt>)
    requires RegularAll(body, AtTop) && NoRepeats(NodesOf(body))
    requires forall t :: CompleteRun(InC, body, t) <==> CompleteRun(AsBuilt, body, t)
    ensures CleanAll(body)
  {
    hide ExecutesAll, NodesOf, RegularAll, CleanAll;
    var ends := {Normal, Returned};
    forall r, t, o | ExecutesAll(r, body, t, o)
      ensures o in ends && ExecutesAll(Other(r), body, t, o)
    {
      NoStrayJumpsInAll(r, body, AtTop, t, o);
      assert CompleteRun(r, body, t);
      assert CompleteRun(Other(r), body, t);
      AllOutcomeShown(r, body, t, o);
      AllOutcomeShown(Other(r), body, t, if ExecutesAll(Other(r), body, t, Normal) then Normal else Returned);
    }
    BothWaysAll(body, ends);
    AlikeIsClean(body, AtTop, ends);
  }
}
