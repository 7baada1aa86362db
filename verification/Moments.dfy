/** What a run in C performs, part by part. The graph has one node for a whole
    `for` header; in C its init comes once, before the first test, and its step
    comes after the body. A moment is one part performed; the tests and
    statements among the moments of a run are a run of nodes as in `Runs`. */
module Moments {
  import opened Collections
  import opened Ast
  import opened Runs
  import opened Readings

  /** A statement or the test of a branch or loop; or another part of a `for`. */
  datatype Moment = ForInit(id: NodeId) | Visit(id: NodeId) | ForStep(id: NodeId)

  ghost predicate Performs(s: Stmt, u: seq<Moment>, o: Outcome)
    decreases |u|, Size(s), 1
  {
    if Hollow(s) then u == (if s.Loop? && s.kind.For? then [ForInit(s.id), Visit(s.id)] else [Visit(s.id)]) && o == Normal
    else match s
    case Plain(id) => u == [Visit(id)] && o == Normal
    case Label(id, _) => u == [Visit(id)] && o == Normal
    case Case(id, _) => u == [Visit(id)] && o == Normal
    case Return(id) => u == [Visit(id)] && o == Returned
    case Break(id) => u == [Visit(id)] && o == Broke
    case Continue(id) => u == [Visit(id)] && o == Continued
    case If(id, th, el) =>
      && u != [] && u[0] == Visit(id)
      && (PerformsAll(Sequence(th), u[1..], o) || PerformsAll(Sequence(el), u[1..], o))
    case Loop(_, While, _) => PerformsRounds(s, u, o)
    case Loop(id, For, _) => u != [] && u[0] == ForInit(id) && PerformsRounds(s, u[1..], o)
    case Loop(_, Do, _) => PerformsDo(s, u, o)
    case Compound(_, ss) => PerformsAll(ss, u, o)
    case Switch(id, b) =>
      && Braced(b) && u != [] && u[0] == Visit(id)
      && var ss := Sequence(b);
         || (u == [Visit(id)] && o == Normal && !HasDefaultLabel(ss))
         || exists i :: 0 <= i < |ss| && ss[i].Case? && PerformsFrom(ss[i..], u[1..], o)
    case Goto(_, _) => false
  }

  /** The children of a `switch` from the chosen label on. */
  ghost predicate PerformsFrom(ss: seq<Stmt>, u: seq<Moment>, o: Outcome)
    decreases |u|, SizeAll(ss), 3
  {
    if o == Normal then PerformsAll(ss, u, Normal) || PerformsAll(ss, u, Broke)
    else o != Broke && PerformsAll(ss, u, o)
  }

  ghost predicate PerformsAll(ss: seq<Stmt>, u: seq<Moment>, o: Outcome)
    decreases |u|, SizeAll(ss), 2
  {
    if ss == [] then
      u == [] && o == Normal
    else
      || (o != Normal && Performs(ss[0], u, o))
      || exists k :: 0 <= k <= |u| && Performs(ss[0], u[..k], Normal) && PerformsAll(ss[1..], u[k..], o)
  }

  /** What a loop performs between a round of its body and the next test. */
  function Comeback(s: Stmt): seq<Moment>
    requires s.Loop?
  {
    if s.kind.For? then [ForStep(s.id)] else []
  }

  /** A `while` loop, or a `for` loop after its init: test, then leave, or go round. */
  ghost predicate PerformsRounds(s: Stmt, u: seq<Moment>, o: Outcome)
    requires s.Loop?
    decreases |u|, Size(s), 0
  {
    && u != [] && u[0] == Visit(s.id)
    && (|| (u == [Visit(s.id)] && o == Normal)
        || (o == Normal && PerformsAll(Sequence(s.body), u[1..], Broke))
        || (o == Returned && PerformsAll(Sequence(s.body), u[1..], Returned))
        || exists k :: 1 <= k <= |u| && ComesRound(s, u[1..k]) && Comeback(s) <= u[k..]
                       && PerformsRounds(s, u[k..][|Comeback(s)|..], o))
  }

  /** One execution of a loop body after which the loop goes on: `continue` leads
      to the step of a `for`, as the end of the body does. */
  ghost predicate ComesRound(s: Stmt, u: seq<Moment>)
    requires s.Loop?
    decreases |u|, SizeAll(Sequence(s.body)), 3
  {
    PerformsAll(Sequence(s.body), u, Normal) || PerformsAll(Sequence(s.body), u, Continued)
  }

  ghost predicate PerformsDo(s: Stmt, u: seq<Moment>, o: Outcome)
    requires s.Loop?
    decreases |u|, Size(s), 0
  {
    || (o == Normal && PerformsAll(Sequence(s.body), u, Broke))
    || (o == Returned && PerformsAll(Sequence(s.body), u, Returned))
    || exists k :: 0 <= k < |u| && ComesRound(s, u[..k]) && u[k] == Visit(s.id)
                   && ((k + 1 == |u| && o == Normal) || PerformsDo(s, u[k + 1..], o))
  }

  /** A whole function body in C, from its start to its return. */
  ghost predicate Performance(body: seq<Stmt>, u: seq<Moment>)
  {
    PerformsAll(body, u, Normal) || PerformsAll(body, u, Returned)
  }

  /** The nodes that a run of moments meets, as the graph counts them. */
  function Met(u: seq<Moment>): seq<NodeId>
  {
    if u == [] then [] else (if u[0].Visit? then [u[0].id] else []) + Met(u[1..])
  }

  lemma {:induction false} MetAppend(u: seq<Moment>, v: seq<Moment>)
    ensures Met(u + v) == Met(u) + Met(v)
  {
    if u == [] {
      assert u + v == v;
    } else {
      var here := if u[0].Visit? then [u[0].id] else [];
      assert (u + v)[1..] == u[1..] + v;
      MetAppend(u[1..], v);
      assert Met(u + v) == here + (Met(u[1..]) + Met(v));
      assert Met(u) == here + Met(u[1..]);
    }
  }

  /** A run that starts with a test or statement meets that first. */
  lemma MetFirst(u: seq<Moment>)
    requires u != [] && u[0].Visit?
    ensures Met(u) == [u[0].id] + Met(u[1..]) && Met(u) != [] && Met(u)[0] == u[0].id && Met(u)[1..] == Met(u[1..])
  {
  }

  // ------------------------------------------------------------------
  // Loops and what they hold
  // ------------------------------------------------------------------

  /** The `for` loop with header `h`, somewhere in the statement, holds node `n`:
      its header or a node of its body. */
  predicate HeldIn(s: Stmt, h: NodeId, n: NodeId)
    decreases Size(s), 0
  {
    match s
    case If(_, th, el) => Holds(Sequence(th), h, n) || Holds(Sequence(el), h, n)
    case Loop(id, kind, b) => (kind.For? && id == h && n in Nodes(s)) || Holds(Sequence(b), h, n)
    case Switch(_, b) => Holds(Sequence(b), h, n)
    case Compound(_, ss) => Holds(ss, h, n)
    case _ => false
  }

  predicate Holds(ss: seq<Stmt>, h: NodeId, n: NodeId)
    decreases SizeAll(ss), 1
  {
    ss != [] && (HeldIn(ss[0], h, n) || Holds(ss[1..], h, n))
  }

  /** `h` is the header of a `for` loop. */
  predicate IsFor(ss: seq<Stmt>, h: NodeId)
  {
    Holds(ss, h, h)
  }

  lemma {:induction false} HeldAreNodes(s: Stmt, h: NodeId, n: NodeId)
    requires HeldIn(s, h, n)
    ensures n in Nodes(s) && h in Nodes(s) && HeldIn(s, h, h)
    decreases Size(s), 0
  {
    match s
    case If(_, th, el) =>
      if Holds(Sequence(th), h, n) {
        AllHeldAreNodes(Sequence(th), h, n);
      } else {
        AllHeldAreNodes(Sequence(el), h, n);
      }
    case Loop(id, kind, b) =>
      if !(kind.For? && id == h && n in Nodes(s)) {
        AllHeldAreNodes(Sequence(b), h, n);
      }
    case Switch(_, b) => AllHeldAreNodes(Sequence(b), h, n);
    case Compound(_, ss) => AllHeldAreNodes(ss, h, n);
  }

  lemma {:induction false} AllHeldAreNodes(ss: seq<Stmt>, h: NodeId, n: NodeId)
    requires Holds(ss, h, n)
    ensures n in NodesOf(ss) && h in NodesOf(ss) && IsFor(ss, h)
    decreases SizeAll(ss), 1
  {
    hide HeldIn, Nodes;
    if HeldIn(ss[0], h, n) {
      HeldAreNodes(ss[0], h, n);
    } else {
      AllHeldAreNodes(ss[1..], h, n);
    }
  }

  // ------------------------------------------------------------------
  // The nodes met are a run
  // ------------------------------------------------------------------

  /** Every init and every step belongs to a `for` of the list, and its test follows. */
  ghost predicate Paired(ss: seq<Stmt>, u: seq<Moment>)
  {
    forall m :: 0 <= m < |u| && !u[m].Visit? ==> m + 1 < |u| && u[m + 1] == Visit(u[m].id) && IsFor(ss, u[m].id)
  }

  ghost predicate PairedIn(s: Stmt, u: seq<Moment>)
  {
    forall m :: 0 <= m < |u| && !u[m].Visit? ==> m + 1 < |u| && u[m + 1] == Visit(u[m].id) && HeldIn(s, u[m].id, u[m].id)
  }

  /** The first statement performs the first `k` moments and finishes; the others the rest. */
  ghost predicate PerformsOn(ss: seq<Stmt>, u: seq<Moment>, k: int, o: Outcome)
    requires ss != [] && 0 <= k <= |u|
  {
    Performs(ss[0], u[..k], Normal) && PerformsAll(ss[1..], u[k..], o)
  }

  lemma PerformsSomewhere(ss: seq<Stmt>, u: seq<Moment>, o: Outcome)
    requires ss != []
    ensures PerformsAll(ss, u, o) <==>
      (o != Normal && Performs(ss[0], u, o)) || exists k :: 0 <= k <= |u| && PerformsOn(ss, u, k, o)
  {
    hide Performs;
    if o == Normal || !Performs(ss[0], u, o) {
      if PerformsAll(ss, u, o) {
        var k :| 0 <= k <= |u| && Performs(ss[0], u[..k], Normal) && PerformsAll(ss[1..], u[k..], o);
        assert PerformsOn(ss, u, k, o);
      }
    }
  }

  /** One round of a loop, up to the next test. */
  ghost predicate RoundEnds(s: Stmt, u: seq<Moment>, k: int, o: Outcome)
    requires s.Loop? && 1 <= k <= |u|
  {
    && ComesRound(s, u[1..k]) && Comeback(s) <= u[k..]
    && PerformsRounds(s, u[k..][|Comeback(s)|..], o)
  }

  lemma {:induction false} PerformanceMeets(s: Stmt, u: seq<Moment>, o: Outcome)
    requires Performs(s, u, o)
    ensures Executes(InC, s, Met(u), o) && PairedIn(s, u)
    decreases |u|, Size(s), 1
  {
    match s
    case If(_, _, _) => IfMeets(s, u, o);
    case Loop(_, kind, b) =>
      if b.None? {
        HollowLoopMeets(s, u, o);
      } else {
        match kind
        case While => RoundsMeet(s, u, o);
        case For => ForMeets(s, u, o);
        case Do => DoMeets(s, u, o);
      }
    case Compound(_, ss) => AllPerformancesMeet(ss, u, o);
    case Switch(_, _) => SwitchMeets(s, u, o);
    case _ => MetOne(s.id);
  }

  lemma {:induction false} IfMeets(s: Stmt, u: seq<Moment>, o: Outcome)
    requires s.If? && Performs(s, u, o)
    ensures Executes(InC, s, Met(u), o) && PairedIn(s, u)
    decreases |u|, Size(s), 0
  {
    hide PerformsAll, ExecutesAll, Holds, Met, PairedIn, Paired;
    MetFirst(u);
    var ss := Sequence(if PerformsAll(Sequence(s.thenBranch), u[1..], o) then s.thenBranch else s.elseBranch);
    AllPerformancesMeet(ss, u[1..], o);
    PairedAfterVisit(s, ss, u);
  }

  lemma HollowLoopMeets(s: Stmt, u: seq<Moment>, o: Outcome)
    requires s.Loop? && Hollow(s) && Performs(s, u, o)
    ensures Executes(InC, s, Met(u), o) && PairedIn(s, u)
  {
    hide Met, PairedIn;
    MetOne(s.id);
    if s.kind.For? {
      assert u == [u[0]] + [Visit(s.id)] && u[1..] == [Visit(s.id)];
      MetNothingFirst(u);
      PairedAlone(s, u[1..]);
      PairedBefore(s, u[0], u[1..]);
    } else {
      PairedAlone(s, u);
    }
  }

  lemma {:induction false} ForMeets(s: Stmt, u: seq<Moment>, o: Outcome)
    requires s.Loop? && s.kind.For? && s.body.Some? && Performs(s, u, o)
    ensures Executes(InC, s, Met(u), o) && PairedIn(s, u)
    decreases |u|, Size(s), 0
  {
    hide ExecutesWhile, PerformsAll, ComesRound, Holds, Met, PairedIn;
    RoundsMeet(s, u[1..], o);
    MetNothingFirst(u);
    PairedBefore(s, u[0], u[1..]);
    assert u == [u[0]] + u[1..];
  }

  lemma MetNothingFirst(u: seq<Moment>)
    requires u != [] && !u[0].Visit?
    ensures Met(u) == Met(u[1..])
  {
  }

  /** The init or step of a `for` before its test. */
  lemma PairedBefore(s: Stmt, m: Moment, w: seq<Moment>)
    requires s.Loop? && s.kind.For? && m.id == s.id && w != [] && w[0] == Visit(s.id) && PairedIn(s, w)
    ensures PairedIn(s, [m] + w)
  {
    hide Holds;
    assert HeldIn(s, s.id, s.id);
  }

  lemma PairedBoth(s: Stmt, v: seq<Moment>, w: seq<Moment>)
    requires PairedIn(s, v) && PairedIn(s, w)
    ensures PairedIn(s, v + w)
  {
    hide HeldIn;
  }

  lemma NonePaired(ss: seq<Stmt>)
    ensures Paired(ss, [])
  {
  }

  lemma PairedInList(ss: seq<Stmt>, v: seq<Moment>, w: seq<Moment>)
    requires ss != [] && PairedIn(ss[0], v) && Paired(ss[1..], w)
    ensures Paired(ss, v + w)
  {
    hide HeldIn;
  }

  /** After a first test or statement come the moments of a list that `s` holds. */
  lemma PairedAfterVisit(s: Stmt, ss: seq<Stmt>, u: seq<Moment>)
    requires u != [] && u[0].Visit? && Paired(ss, u[1..])
    requires forall h :: IsFor(ss, h) ==> HeldIn(s, h, h)
    ensures PairedIn(s, u)
  {
    hide HeldIn, IsFor;
    assert forall m :: 0 < m < |u| ==> u[m] == u[1..][m - 1];
  }

  lemma {:induction false} SwitchMeets(s: Stmt, u: seq<Moment>, o: Outcome)
    requires s.Switch? && Performs(s, u, o)
    ensures Executes(InC, s, Met(u), o) && PairedIn(s, u)
    decreases |u|, Size(s), 0
  {
    hide PerformsAll, ExecutesAll, HasDefaultLabel, Holds, Met, Paired, PairedIn;
    var ss := Sequence(s.compound);
    MetFirst(u);
    if u == [Visit(s.id)] && o == Normal && (Hollow(s) || !HasDefaultLabel(ss)) {
      MetOne(s.id);
      PairedAlone(s, u);
    } else {
      var i :| 0 <= i < |ss| && ss[i].Case? && PerformsFrom(ss[i..], u[1..], o);
      AllPerformancesMeet(ss[i..], u[1..], if o == Normal && PerformsAll(ss[i..], u[1..], Broke) then Broke else o);
      assert RunsFrom(InC, ss[i..], Met(u)[1..], o);
      forall h | IsFor(ss[i..], h)
        ensures HeldIn(s, h, h)
      {
        HeldFrom(ss, i, h, h);
      }
      PairedAfterVisit(s, ss[i..], u);
    }
  }

  lemma PairedAlone(s: Stmt, u: seq<Moment>)
    requires |u| == 1 && u[0].Visit?
    ensures PairedIn(s, u)
  {
  }

  /** What the children from number `i` on hold is held by the whole list. */
  lemma {:induction false} HeldFrom(ss: seq<Stmt>, i: nat, h: NodeId, n: NodeId)
    requires i <= |ss| && Holds(ss[i..], h, n)
    ensures Holds(ss, h, n)
    decreases i
  {
    if i == 0 {
      assert ss[0..] == ss;
    } else {
      assert ss[1..][i - 1..] == ss[i..];
      HeldFrom(ss[1..], i - 1, h, n);
    }
  }

  /** What the list holds among the nodes from child `i` on, those children hold. */
  lemma {:induction false} HeldLater(ss: seq<Stmt>, i: nat, h: NodeId, n: NodeId)
    requires i <= |ss| && NoRepeats(NodesOf(ss)) && Holds(ss, h, n) && n in NodesOf(ss[i..])
    ensures Holds(ss[i..], h, n)
    decreases i
  {
    hide HeldIn, Nodes, NodesOf;
    if i == 0 {
      assert ss[0..] == ss;
    } else {
      ListDistinct(ss);
      assert ss[1..][i - 1..] == ss[i..];
      NodesFrom(ss[1..], i - 1);
      if HeldIn(ss[0], h, n) {
        HeldAreNodes(ss[0], h, n);
      }
      HeldLater(ss[1..], i - 1, h, n);
    }
  }

  lemma {:induction false} AllPerformancesMeet(ss: seq<Stmt>, u: seq<Moment>, o: Outcome)
    requires PerformsAll(ss, u, o)
    ensures ExecutesAll(InC, ss, Met(u), o) && Paired(ss, u)
    decreases |u|, SizeAll(ss), 2
  {
    if ss != [] {
      hide Performs, PerformsAll, Executes, ExecutesAll, Met, Paired, PairedIn;
      PerformsSomewhere(ss, u, o);
      if o != Normal && Performs(ss[0], u, o) {
        PerformanceMeets(ss[0], u, o);
        SplitsSomewhere(InC, ss, Met(u), o);
        NonePaired(ss[1..]);
        PairedInList(ss, u, []);
        assert u + [] == u;
      } else {
        var k :| 0 <= k <= |u| && PerformsOn(ss, u, k, o);
        PerformanceMeets(ss[0], u[..k], Normal);
        AllPerformancesMeet(ss[1..], u[k..], o);
        assert u == u[..k] + u[k..];
        MetAppend(u[..k], u[k..]);
        InOrder(InC, ss, Met(u[..k]), Met(u[k..]), o);
        PairedInList(ss, u[..k], u[k..]);
      }
    }
  }

  lemma {:induction false} RoundsMeet(s: Stmt, u: seq<Moment>, o: Outcome)
    requires s.Loop? && PerformsRounds(s, u, o)
    ensures ExecutesWhile(InC, s, Met(u), o) && PairedIn(s, u)
    decreases |u|, Size(s), 0
  {
    hide PerformsAll, ExecutesAll, Holds, ComesRound, GoesRound, Met, Paired, PairedIn;
    var body := Sequence(s.body);
    MetFirst(u);
    if u == [Visit(s.id)] && o == Normal {
      MetOne(s.id);
      PairedAlone(s, u);
    } else if o == Normal && PerformsAll(body, u[1..], Broke) {
      AllPerformancesMeet(body, u[1..], Broke);
      PairedAfterVisit(s, body, u);
    } else if o == Returned && PerformsAll(body, u[1..], Returned) {
      AllPerformancesMeet(body, u[1..], Returned);
      PairedAfterVisit(s, body, u);
    } else {
      var k :| 1 <= k <= |u| && ComesRound(s, u[1..k]) && Comeback(s) <= u[k..]
               && PerformsRounds(s, u[k..][|Comeback(s)|..], o);
      RoundMeets(s, u, k, o);
    }
  }

  lemma {:induction false} RoundMeets(s: Stmt, u: seq<Moment>, k: int, o: Outcome)
    requires s.Loop? && 1 <= k <= |u| && u[0] == Visit(s.id) && RoundEnds(s, u, k, o)
    ensures ExecutesWhile(InC, s, Met(u), o) && PairedIn(s, u)
    decreases |u|, SizeAll(Sequence(s.body)), 4
  {
    hide ComesRound, PerformsRounds, GoesRound, ExecutesWhile, Met, Paired, PairedIn, Comeback;
    var v, w := u[1..k], u[k..][|Comeback(s)|..];
    RoundMeetsToo(s, v);
    RoundsMeet(s, w, o);
    RoundNodes(s, u, k);
    RoundThenRun(s, Met(v), Met(w), o);
    RoundPaired(s, u, k, o);
  }

  lemma RoundThenRun(s: Stmt, v: seq<NodeId>, w: seq<NodeId>, o: Outcome)
    requires s.Loop? && GoesRound(InC, s, v) && ExecutesWhile(InC, s, w, o)
    ensures ExecutesWhile(InC, s, [s.id] + v + w, o)
  {
    hide GoesRound, ExecutesAll;
    var t := [s.id] + v + w;
    var k := |v| + 1;
    assert t[1..k] == v && t[k..] == w;
    assert GoesRound(InC, s, t[1..k]) && ExecutesWhile(InC, s, t[k..], o);
  }

  lemma RoundNodes(s: Stmt, u: seq<Moment>, k: int)
    requires s.Loop? && 1 <= k <= |u| && u[0] == Visit(s.id) && Comeback(s) <= u[k..]
    ensures Met(u) == [s.id] + Met(u[1..k]) + Met(u[k..][|Comeback(s)|..])
  {
    hide Met, Comeback;
    MetFirst(u);
    MetApart(u[1..], u[1..k], u[k..]);
    MetAfterComeback(s, u[k..]);
  }

  lemma MetApart(u: seq<Moment>, v: seq<Moment>, w: seq<Moment>)
    requires u == v + w
    ensures Met(u) == Met(v) + Met(w)
  {
    MetAppend(v, w);
  }

  lemma MetAfterComeback(s: Stmt, u: seq<Moment>)
    requires s.Loop? && Comeback(s) <= u
    ensures Met(u) == Met(u[|Comeback(s)|..])
  {
    hide Met;
    ComebackMeetsNothing(s);
    MetApart(u, Comeback(s), u[|Comeback(s)|..]);
  }

  lemma ComebackMeetsNothing(s: Stmt)
    requires s.Loop?
    ensures Met(Comeback(s)) == []
  {
    assert Comeback(s)[|Comeback(s)|..] == [];
    if s.kind.For? {
      assert Comeback(s)[1..] == [];
    }
  }

  lemma MetOne(id: NodeId)
    ensures Met([Visit(id)]) == [id]
  {
    assert [Visit(id)][1..] == [];
  }

  lemma RoundPaired(s: Stmt, u: seq<Moment>, k: int, o: Outcome)
    requires s.Loop? && 1 <= k <= |u| && u[0] == Visit(s.id) && RoundEnds(s, u, k, o)
    requires Paired(Sequence(s.body), u[1..k]) && PairedIn(s, u[k..][|Comeback(s)|..])
    ensures PairedIn(s, u)
  {
    hide ComesRound, PerformsAll, Paired, PairedIn, Holds;
    var c, w := Comeback(s), u[k..][|Comeback(s)|..];
    assert u[k..] == c + w && c == if s.kind.For? then [ForStep(s.id)] else [];
    if s.kind.For? {
      PairedBefore(s, ForStep(s.id), w);
    } else {
      assert c + w == w;
    }
    assert u[..k][1..] == u[1..k] && u == u[..k] + u[k..];
    PairedAfterVisit(s, Sequence(s.body), u[..k]);
    PairedBoth(s, u[..k], u[k..]);
  }

  lemma {:induction false} RoundMeetsToo(s: Stmt, u: seq<Moment>)
    requires s.Loop? && ComesRound(s, u)
    ensures GoesRound(InC, s, Met(u)) && Paired(Sequence(s.body), u)
    decreases |u|, SizeAll(Sequence(s.body)), 3
  {
    if PerformsAll(Sequence(s.body), u, Normal) {
      AllPerformancesMeet(Sequence(s.body), u, Normal);
    } else {
      AllPerformancesMeet(Sequence(s.body), u, Continued);
    }
  }

  lemma {:induction false} DoMeets(s: Stmt, u: seq<Moment>, o: Outcome)
    requires s.Loop? && s.kind.Do? && PerformsDo(s, u, o)
    ensures ExecutesDo(InC, s, Met(u), o) && PairedIn(s, u)
    decreases |u|, Size(s), 0
  {
    hide PerformsAll, ExecutesAll, Holds, ComesRound, GoesRound, Met;
    if o == Normal && PerformsAll(Sequence(s.body), u, Broke) {
      AllPerformancesMeet(Sequence(s.body), u, Broke);
    } else if o == Returned && PerformsAll(Sequence(s.body), u, Returned) {
      AllPerformancesMeet(Sequence(s.body), u, Returned);
    } else {
      var k :| 0 <= k < |u| && ComesRound(s, u[..k]) && u[k] == Visit(s.id)
               && ((k + 1 == |u| && o == Normal) || PerformsDo(s, u[k + 1..], o));
      DoRoundMeets(s, u, k, o);
    }
  }

  lemma {:induction false} DoRoundMeets(s: Stmt, u: seq<Moment>, k: int, o: Outcome)
    requires s.Loop? && s.kind.Do? && 0 <= k < |u| && ComesRound(s, u[..k]) && u[k] == Visit(s.id)
    requires (k + 1 == |u| && o == Normal) || PerformsDo(s, u[k + 1..], o)
    ensures ExecutesDo(InC, s, Met(u), o) && PairedIn(s, u)
    decreases |u|, SizeAll(Sequence(s.body)), 4
  {
    hide PerformsAll, ExecutesAll, Holds, HeldIn, ComesRound, GoesRound, Met;
    RoundMeetsToo(s, u[..k]);
    DoNodes(s, u, k);
    var t := Met(u);
    var n := |Met(u[..k])|;
    assert t[..n] == Met(u[..k]) && t[n] == s.id && t[n + 1..] == Met(u[k + 1..]);
    assert GoesRound(InC, s, t[..n]);
    if k + 1 == |u| && o == Normal {
      NothingMet(u[k + 1..]);
    } else {
      DoMeets(s, u[k + 1..], o);
    }
    DoPaired(s, u, k);
  }

  lemma NothingMet(u: seq<Moment>)
    requires u == []
    ensures Met(u) == []
  {
  }

  lemma DoPaired(s: Stmt, u: seq<Moment>, k: int)
    requires s.Loop? && 0 <= k < |u| && u[k] == Visit(s.id)
    requires Paired(Sequence(s.body), u[..k]) && PairedIn(s, u[k + 1..])
    ensures PairedIn(s, u)
  {
    hide Holds;
    forall m | 0 <= m < |u| && !u[m].Visit?
      ensures m + 1 < |u| && u[m + 1] == Visit(u[m].id) && HeldIn(s, u[m].id, u[m].id)
    {
      if m < k {
        assert u[..k][m] == u[m];
      } else {
        assert u[k + 1..][m - k - 1] == u[m];
      }
    }
  }

  lemma DoNodes(s: Stmt, u: seq<Moment>, k: int)
    requires s.Loop? && 0 <= k < |u| && u[k] == Visit(s.id)
    ensures Met(u) == Met(u[..k]) + [s.id] + Met(u[k + 1..])
  {
    assert u == u[..k] + u[k..] && u[k..] == [u[k]] + u[k + 1..];
    MetAppend(u[..k], u[k..]);
  }

  // ------------------------------------------------------------------
  // Every run is met by some performance
  // ------------------------------------------------------------------

  lemma {:induction false} RunIsMet(s: Stmt, t: seq<NodeId>, o: Outcome) returns (u: seq<Moment>)
    requires Executes(InC, s, t, o)
    ensures Performs(s, u, o) && Met(u) == t
    decreases |t|, Size(s), 1
  {
    match s
    case If(_, _, _) => u := IfIsMet(s, t, o);
    case Loop(_, _, _) => u := LoopIsMet(s, t, o);
    case Compound(_, ss) => u := AllRunsAreMet(ss, t, o);
    case Switch(_, _) => u := SwitchIsMet(s, t, o);
    case _ =>
      MetOne(s.id);
      u := [Visit(s.id)];
  }

  lemma {:induction false} IfIsMet(s: Stmt, t: seq<NodeId>, o: Outcome) returns (u: seq<Moment>)
    requires s.If? && Executes(InC, s, t, o)
    ensures Performs(s, u, o) && Met(u) == t
    decreases |t|, Size(s), 0
  {
    hide PerformsAll, ExecutesAll, Met;
    var th, el := Sequence(s.thenBranch), Sequence(s.elseBranch);
    var v := AllRunsAreMet(if ExecutesAll(InC, th, t[1..], o) then th else el, t[1..], o);
    u := AfterTest(s.id, t, v);
  }

  lemma {:induction false} LoopIsMet(s: Stmt, t: seq<NodeId>, o: Outcome) returns (u: seq<Moment>)
    requires s.Loop? && Executes(InC, s, t, o)
    ensures Performs(s, u, o) && Met(u) == t
    decreases |t|, Size(s), 1, 0
  {
    hide PerformsAll, ExecutesAll, PerformsRounds, ExecutesWhile, PerformsDo, ExecutesDo, Met;
    if Hollow(s) {
      MetOne(s.id);
      u := [Visit(s.id)];
      if s.kind.For? {
        u := [ForInit(s.id)] + u;
        assert u[1..] == [Visit(s.id)] && u == [ForInit(s.id), Visit(s.id)];
        MetNothingFirst(u);
      }
      return;
    }
    match s.kind
    case While => u := RoundsAreMet(s, t, o);
    case For =>
      var v := RoundsAreMet(s, t, o);
      u := [ForInit(s.id)] + v;
      assert u[1..] == v;
      MetNothingFirst(u);
    case Do => u := DoIsMet(s, t, o);
  }

  lemma {:induction false} SwitchIsMet(s: Stmt, t: seq<NodeId>, o: Outcome) returns (u: seq<Moment>)
    requires s.Switch? && Executes(InC, s, t, o)
    ensures Performs(s, u, o) && Met(u) == t
    decreases |t|, Size(s), 0
  {
    hide PerformsAll, ExecutesAll, HasDefaultLabel, Met;
    var ss := Sequence(s.compound);
    if t == [s.id] && o == Normal && (Hollow(s) || !HasDefaultLabel(ss)) {
      MetOne(s.id);
      u := [Visit(s.id)];
    } else {
      var i :| 0 <= i < |ss| && ss[i].Case? && RunsFrom(InC, ss[i..], t[1..], o);
      var v := AllRunsAreMet(ss[i..], t[1..], if o == Normal && ExecutesAll(InC, ss[i..], t[1..], Broke) then Broke else o);
      u := AfterTest(s.id, t, v);
      assert PerformsFrom(ss[i..], u[1..], o);
    }
  }

  lemma {:induction false} AllRunsAreMet(ss: seq<Stmt>, t: seq<NodeId>, o: Outcome) returns (u: seq<Moment>)
    requires ExecutesAll(InC, ss, t, o)
    ensures PerformsAll(ss, u, o) && Met(u) == t
    decreases |t|, SizeAll(ss), 2
  {
    if ss == [] {
      u := [];
    } else {
      hide Performs, PerformsAll, Executes, ExecutesAll, Met;
      SplitsSomewhere(InC, ss, t, o);
      if o != Normal && Executes(InC, ss[0], t, o) {
        u := RunIsMet(ss[0], t, o);
        PerformsSomewhere(ss, u, o);
      } else {
        var k :| 0 <= k <= |t| && GoesOn(InC, ss, t, k, o);
        var v := RunIsMet(ss[0], t[..k], Normal);
        var w := AllRunsAreMet(ss[1..], t[k..], o);
        u := v + w;
        MetJoined(t, k, v, w);
        PerformsInOrder(ss, v, w, o);
      }
    }
  }

  lemma MetJoined(t: seq<NodeId>, k: nat, v: seq<Moment>, w: seq<Moment>)
    requires k <= |t| && Met(v) == t[..k] && Met(w) == t[k..]
    ensures Met(v + w) == t
  {
    hide Met;
    MetAppend(v, w);
    assert t == t[..k] + t[k..];
  }

  lemma PerformsInOrder(ss: seq<Stmt>, v: seq<Moment>, w: seq<Moment>, o: Outcome)
    requires ss != [] && Performs(ss[0], v, Normal) && PerformsAll(ss[1..], w, o)
    ensures PerformsAll(ss, v + w, o)
  {
    hide Performs, PerformsAll;
    assert (v + w)[..|v|] == v && (v + w)[|v|..] == w;
    assert PerformsOn(ss, v + w, |v|, o);
    PerformsSomewhere(ss, v + w, o);
  }

  lemma {:induction false} RoundIsMet(s: Stmt, t: seq<NodeId>) returns (u: seq<Moment>)
    requires s.Loop? && GoesRound(InC, s, t)
    ensures ComesRound(s, u) && Met(u) == t
    decreases |t|, SizeAll(Sequence(s.body)), 3
  {
    if ExecutesAll(InC, Sequence(s.body), t, Normal) {
      u := AllRunsAreMet(Sequence(s.body), t, Normal);
    } else {
      u := AllRunsAreMet(Sequence(s.body), t, Continued);
    }
  }

  lemma {:induction false} RoundsAreMet(s: Stmt, t: seq<NodeId>, o: Outcome) returns (u: seq<Moment>)
    requires s.Loop? && ExecutesWhile(InC, s, t, o)
    ensures PerformsRounds(s, u, o) && Met(u) == t
    decreases |t|, Size(s), 0
  {
    hide PerformsAll, ExecutesAll, ComesRound, GoesRound, Met;
    if t == [s.id] && o == Normal {
      MetOne(s.id);
      u := [Visit(s.id)];
    } else if o == Normal && ExecutesAll(InC, Sequence(s.body), t[1..], Broke) {
      var v := AllRunsAreMet(Sequence(s.body), t[1..], Broke);
      u := AfterTest(s.id, t, v);
    } else if o == Returned && ExecutesAll(InC, Sequence(s.body), t[1..], Returned) {
      var v := AllRunsAreMet(Sequence(s.body), t[1..], Returned);
      u := AfterTest(s.id, t, v);
    } else {
      var k :| 1 <= k <= |t| && GoesRound(InC, s, t[1..k]) && ExecutesWhile(InC, s, t[k..], o);
      u := AnotherRoundIsMet(s, t, k, o);
    }
  }

  lemma {:induction false} AnotherRoundIsMet(s: Stmt, t: seq<NodeId>, k: int, o: Outcome) returns (u: seq<Moment>)
    requires s.Loop? && 1 <= k <= |t| && t[0] == s.id && GoesRound(InC, s, t[1..k]) && ExecutesWhile(InC, s, t[k..], o)
    ensures PerformsRounds(s, u, o) && Met(u) == t
    decreases |t|, SizeAll(Sequence(s.body)), 4
  {
    hide ComesRound, GoesRound, ExecutesWhile, PerformsRounds, Met;
    var v := RoundIsMet(s, t[1..k]);
    var w := RoundsAreMet(s, t[k..], o);
    u := RoundThenRest(s, v, w, o);
    assert t == [s.id] + t[1..k] + t[k..];
  }

  lemma AfterTest(id: NodeId, t: seq<NodeId>, v: seq<Moment>) returns (u: seq<Moment>)
    requires t != [] && t[0] == id && Met(v) == t[1..]
    ensures u == [Visit(id)] + v && u[1..] == v && Met(u) == t
  {
    u := [Visit(id)] + v;
    MetOne(id);
    MetAppend([Visit(id)], v);
  }

  lemma RoundThenRest(s: Stmt, v: seq<Moment>, w: seq<Moment>, o: Outcome) returns (u: seq<Moment>)
    requires s.Loop? && ComesRound(s, v) && PerformsRounds(s, w, o)
    ensures PerformsRounds(s, u, o) && Met(u) == [s.id] + Met(v) + Met(w)
  {
    hide ComesRound, PerformsRounds, Met;
    var c := Comeback(s);
    u := [Visit(s.id)] + v + c + w;
    var k := |v| + 1;
    assert u[1..k] == v && u[k..] == c + w && u[k..][|c|..] == w;
    RoundNodes(s, u, k);
    OneMoreRound(s, u, k, o);
  }

  lemma OneMoreRound(s: Stmt, u: seq<Moment>, k: int, o: Outcome)
    requires s.Loop? && 1 <= k <= |u| && u[0] == Visit(s.id) && RoundEnds(s, u, k, o)
    ensures PerformsRounds(s, u, o)
  {
    hide ComesRound, PerformsAll, Comeback;
  }

  lemma {:induction false} DoIsMet(s: Stmt, t: seq<NodeId>, o: Outcome) returns (u: seq<Moment>)
    requires s.Loop? && ExecutesDo(InC, s, t, o)
    ensures PerformsDo(s, u, o) && Met(u) == t
    decreases |t|, Size(s), 0
  {
    hide PerformsAll, ExecutesAll, ComesRound, GoesRound, Met;
    if o == Normal && ExecutesAll(InC, Sequence(s.body), t, Broke) {
      u := AllRunsAreMet(Sequence(s.body), t, Broke);
    } else if o == Returned && ExecutesAll(InC, Sequence(s.body), t, Returned) {
      u := AllRunsAreMet(Sequence(s.body), t, Returned);
    } else {
      var k :| 0 <= k < |t| && GoesRound(InC, s, t[..k]) && t[k] == s.id
               && ((k + 1 == |t| && o == Normal) || ExecutesDo(InC, s, t[k + 1..], o));
      u := DoRoundIsMet(s, t, k, o);
    }
  }

  lemma {:induction false} DoRoundIsMet(s: Stmt, t: seq<NodeId>, k: int, o: Outcome) returns (u: seq<Moment>)
    requires s.Loop? && 0 <= k < |t| && GoesRound(InC, s, t[..k]) && t[k] == s.id
    requires (k + 1 == |t| && o == Normal) || ExecutesDo(InC, s, t[k + 1..], o)
    ensures PerformsDo(s, u, o) && Met(u) == t
    decreases |t|, SizeAll(Sequence(s.body)), 4
  {
    hide ComesRound, GoesRound, Met, PerformsDo, ExecutesDo;
    var v := RoundIsMet(s, t[..k]);
    assert t == t[..k] + [s.id] + t[k + 1..];
    if k + 1 == |t| && o == Normal {
      NothingMet([]);
      u := DoRoundThenRest(s, v, [], o);
    } else {
      var w := DoIsMet(s, t[k + 1..], o);
      u := DoRoundThenRest(s, v, w, o);
    }
  }

  lemma DoRoundThenRest(s: Stmt, v: seq<Moment>, w: seq<Moment>, o: Outcome) returns (u: seq<Moment>)
    requires s.Loop? && ComesRound(s, v) && ((w == [] && o == Normal) || PerformsDo(s, w, o))
    ensures PerformsDo(s, u, o) && Met(u) == Met(v) + [s.id] + Met(w)
  {
    hide PerformsAll, ComesRound, Met;
    u := v + [Visit(s.id)] + w;
    var k := |v|;
    assert u[..k] == v && u[k] == Visit(s.id) && u[k + 1..] == w;
    assert ComesRound(s, u[..k]) && ((k + 1 == |u| && o == Normal) || PerformsDo(s, u[k + 1..], o));
    DoNodes(s, u, k);
  }

  /** The runs of `Runs` are exactly what performances in C meet: the path theorem
      speaks about C with its `for` loops when one looks at tests and statements. */
  lemma RunsAreMet(body: seq<Stmt>, t: seq<NodeId>)
    ensures CompleteRun(InC, body, t) <==> exists u :: Performance(body, u) && Met(u) == t
  {
    hide PerformsAll, ExecutesAll, Met;
    if CompleteRun(InC, body, t) {
      var u := AllRunsAreMet(body, t, if ExecutesAll(InC, body, t, Normal) then Normal else Returned);
    }
    if u :| Performance(body, u) && Met(u) == t {
      PerformanceIsRun(body, u);
    }
  }

  lemma PerformanceIsRun(body: seq<Stmt>, u: seq<Moment>)
    requires Performance(body, u)
    ensures CompleteRun(InC, body, Met(u)) && Paired(body, u)
  {
    hide PerformsAll, ExecutesAll, Met, Paired;
    AllPerformancesMeet(body, u, if PerformsAll(body, u, Normal) then Normal else Returned);
  }

  // ------------------------------------------------------------------
  // A loop is entered by its init
  // ------------------------------------------------------------------

  /** Every moment belongs to a node met: an init or a step to the test after it. */
  lemma MomentsWithin(s: Stmt, u: seq<Moment>, o: Outcome, m: nat)
    requires Performs(s, u, o) && m < |u|
    ensures u[m].id in Nodes(s)
  {
    hide Performs, Executes, Met, HeldIn, Nodes;
    PerformanceMeets(s, u, o);
    RunsWithin(InC, s, Met(u), o);
    MetAt(u, if u[m].Visit? then m else m + 1);
  }

  lemma AllMomentsWithin(ss: seq<Stmt>, u: seq<Moment>, o: Outcome, m: nat)
    requires PerformsAll(ss, u, o) && m < |u|
    ensures u[m].id in NodesOf(ss)
  {
    hide PerformsAll, ExecutesAll, Met, Holds, NodesOf;
    AllPerformancesMeet(ss, u, o);
    AllRunsWithin(InC, ss, Met(u), o);
    MetAt(u, if u[m].Visit? then m else m + 1);
  }

  /** The number of the moment `m` among the nodes met. */
  function Count(u: seq<Moment>, m: nat): nat
    requires m <= |u|
  {
    |Met(u[..m])|
  }

  lemma MetAt(u: seq<Moment>, m: nat)
    requires m < |u| && u[m].Visit?
    ensures Count(u, m) < |Met(u)| && Met(u)[Count(u, m)] == u[m].id && u[m].id in Met(u)
    ensures Count(u, m + 1) == Count(u, m) + 1
  {
    hide Met;
    MetOne(u[m].id);
    MetAppend(u[..m], [u[m]]);
    assert u[..m + 1] == u[..m] + [u[m]];
    assert u == u[..m + 1] + u[m + 1..];
    MetAppend(u[..m + 1], u[m + 1..]);
  }

  /** Before moment `m` loop `h` was entered, and has not been left since. */
  ghost predicate EnteredBefore(ss: seq<Stmt>, u: seq<Moment>, h: NodeId, b: int, m: int)
  {
    0 <= b < m < |u| && u[b] == ForInit(h) && forall q :: b <= q <= m ==> Holds(ss, h, u[q].id)
  }

  ghost predicate EnteredIn(s: Stmt, u: seq<Moment>, h: NodeId, b: int, m: int)
  {
    0 <= b < m < |u| && u[b] == ForInit(h) && forall q :: b <= q <= m ==> HeldIn(s, h, u[q].id)
  }

  /** From a part of a list of moments to the whole. */
  lemma EnteredShifted(ss: seq<Stmt>, u: seq<Moment>, v: seq<Moment>, from: nat, h: NodeId, b: int, m: int)
    requires from + |v| <= |u| && u[from..from + |v|] == v && EnteredBefore(ss, v, h, b, m)
    ensures EnteredBefore(ss, u, h, b + from, m + from)
  {
    hide Holds;
    assert forall q :: 0 <= q < |v| ==> v[q] == u[q + from];
  }

  lemma EnteredInList(ss: seq<Stmt>, u: seq<Moment>, h: NodeId, b: int, m: int)
    requires ss != [] && (EnteredIn(ss[0], u, h, b, m) || EnteredBefore(ss[1..], u, h, b, m))
    ensures EnteredBefore(ss, u, h, b, m)
  {
    hide HeldIn;
  }

  lemma EnteredInFront(s: Stmt, u: seq<Moment>, k: nat, h: NodeId, b: int, m: int)
    requires k <= |u| && EnteredIn(s, u[..k], h, b, m)
    ensures EnteredIn(s, u, h, b, m)
  {
    hide HeldIn;
    assert forall q :: b <= q <= m ==> u[..k][q] == u[q];
  }

  /** Whatever a `for` loop holds is performed after its init, within one
      execution of the loop. */
  lemma {:induction false} LoopsAreEntered(ss: seq<Stmt>, u: seq<Moment>, o: Outcome, h: NodeId, m: nat) returns (b: nat)
    requires PerformsAll(ss, u, o) && NoRepeats(NodesOf(ss))
    requires m < |u| && Holds(ss, h, u[m].id) && u[m] != ForInit(h)
    ensures EnteredBefore(ss, u, h, b, m)
    decreases |u|, SizeAll(ss), 2
  {
    SomethingHeld(ss, h, u[m].id);
    hide Performs, PerformsAll, HeldIn, Holds, Nodes, NodesOf, EnteredBefore, EnteredIn;
    ListDistinct(ss);
    PerformsSomewhere(ss, u, o);
    if o != Normal && Performs(ss[0], u, o) {
      MomentsWithin(ss[0], u, o, m);
      OnlyInFirst(ss, h, u[m].id);
      b := LoopIsEntered(ss[0], u, o, h, m);
    } else {
      var k :| 0 <= k <= |u| && PerformsOn(ss, u, k, o);
      if m < k {
        HeldInFront(ss, u, k, o, h, m);
        b := LoopIsEntered(ss[0], u[..k], Normal, h, m);
        EnteredInFront(ss[0], u, k, h, b, m);
      } else {
        HeldInRest(ss, u, k, o, h, m);
        b := LoopsAreEntered(ss[1..], u[k..], o, h, m - k);
        EnteredShifted(ss[1..], u, u[k..], k, h, b, m - k);
        b := b + k;
      }
    }
    EnteredInList(ss, u, h, b, m);
  }

  lemma HeldInFront(ss: seq<Stmt>, u: seq<Moment>, k: nat, o: Outcome, h: NodeId, m: nat)
    requires ss != [] && NoRepeats(NodesOf(ss)) && m < k <= |u| && Performs(ss[0], u[..k], Normal) && Holds(ss, h, u[m].id)
    ensures HeldIn(ss[0], h, u[..k][m].id) && u[..k][m] == u[m] && NoRepeats(Nodes(ss[0]))
  {
    hide Performs, PerformsAll, HeldIn, Holds, Nodes, NodesOf;
    ListDistinct(ss);
    MomentsWithin(ss[0], u[..k], Normal, m);
    OnlyInFirst(ss, h, u[m].id);
  }

  lemma HeldInRest(ss: seq<Stmt>, u: seq<Moment>, k: nat, o: Outcome, h: NodeId, m: nat)
    requires ss != [] && NoRepeats(NodesOf(ss)) && k <= m < |u| && PerformsAll(ss[1..], u[k..], o) && Holds(ss, h, u[m].id)
    ensures Holds(ss[1..], h, u[k..][m - k].id) && u[k..][m - k] == u[m] && NoRepeats(NodesOf(ss[1..]))
    ensures u[k..k + |u[k..]|] == u[k..]
  {
    hide Performs, PerformsAll, HeldIn, Holds, Nodes, NodesOf;
    ListDistinct(ss);
    AllMomentsWithin(ss[1..], u[k..], o, m - k);
    OnlyInRest(ss, h, u[m].id);
  }

  lemma SomethingHeld(ss: seq<Stmt>, h: NodeId, n: NodeId)
    requires Holds(ss, h, n)
    ensures ss != []
  {
  }

  lemma OnlyInRest(ss: seq<Stmt>, h: NodeId, n: NodeId)
    requires ss != [] && Holds(ss, h, n) && n in NodesOf(ss[1..]) && forall x :: x in Nodes(ss[0]) ==> x !in NodesOf(ss[1..])
    ensures Holds(ss[1..], h, n)
  {
    hide HeldIn, Nodes, NodesOf;
    if HeldIn(ss[0], h, n) {
      HeldAreNodes(ss[0], h, n);
    }
  }

  lemma OnlyInFirst(ss: seq<Stmt>, h: NodeId, n: NodeId)
    requires ss != [] && Holds(ss, h, n) && n in Nodes(ss[0]) && forall x :: x in Nodes(ss[0]) ==> x !in NodesOf(ss[1..])
    ensures HeldIn(ss[0], h, n)
  {
    hide HeldIn, Nodes, NodesOf;
    if !HeldIn(ss[0], h, n) {
      AllHeldAreNodes(ss[1..], h, n);
    }
  }

  lemma {:induction false} LoopIsEntered(s: Stmt, u: seq<Moment>, o: Outcome, h: NodeId, m: nat) returns (b: nat)
    requires Performs(s, u, o) && NoRepeats(Nodes(s))
    requires m < |u| && HeldIn(s, h, u[m].id) && u[m] != ForInit(h)
    ensures EnteredIn(s, u, h, b, m)
    decreases |u|, Size(s), 1
  {
    match s
    case If(_, _, _) => b := BranchIsEntered(s, u, o, h, m);
    case Loop(_, _, _) =>
      if s.kind.For? && s.id == h {
        b := 0;
        forall q | 0 <= q <= m
          ensures HeldIn(s, h, u[q].id)
        {
          MomentsWithin(s, u, o, q);
        }
      } else {
        if u[m].id == s.id {
          AllHeldAreNodes(Sequence(s.body), h, u[m].id);
          LoopDistinct(s);
        }
        b := BodyIsEntered(s, u, o, h, m);
      }
    case Compound(_, ss) => b := LoopsAreEntered(ss, u, o, h, m);
    case Switch(_, _) => b := CasesAreEntered(s, u, o, h, m);
  }

  lemma {:induction false} CasesAreEntered(s: Stmt, u: seq<Moment>, o: Outcome, h: NodeId, m: nat) returns (b: nat)
    requires s.Switch? && Performs(s, u, o) && NoRepeats(Nodes(s))
    requires m < |u| && HeldIn(s, h, u[m].id) && u[m] != ForInit(h)
    ensures EnteredIn(s, u, h, b, m)
    decreases |u|, Size(s), 0
  {
    hide PerformsAll, Holds, Nodes, NodesOf, HasDefaultLabel;
    var ss := Sequence(s.compound);
    SwitchDistinct(s, 0);
    AllHeldAreNodes(ss, h, u[m].id);
    var i :| 0 <= i < |ss| && ss[i].Case? && PerformsFrom(ss[i..], u[1..], o);
    var end := if o == Normal && PerformsAll(ss[i..], u[1..], Broke) then Broke else o;
    SwitchDistinct(s, i);
    assert u[1..][m - 1] == u[m];
    AllMomentsWithin(ss[i..], u[1..], end, m - 1);
    HeldLater(ss, i, h, u[m].id);
    b := LoopsAreEntered(ss[i..], u[1..], end, h, m - 1);
    EnteredShifted(ss[i..], u, u[1..], 1, h, b, m - 1);
    b := b + 1;
    forall q | b <= q <= m
      ensures Holds(ss, h, u[q].id)
    {
      HeldFrom(ss, i, h, u[q].id);
    }
  }

  lemma {:induction false} BranchIsEntered(s: Stmt, u: seq<Moment>, o: Outcome, h: NodeId, m: nat) returns (b: nat)
    requires s.If? && Performs(s, u, o) && NoRepeats(Nodes(s))
    requires m < |u| && HeldIn(s, h, u[m].id) && u[m] != ForInit(h)
    ensures EnteredIn(s, u, h, b, m)
    decreases |u|, Size(s), 0
  {
    hide PerformsAll, Holds, Nodes, NodesOf;
    IfDistinct(s);
    var first := PerformsAll(Sequence(s.thenBranch), u[1..], o);
    var mine, other := Branch(s, first), Branch(s, !first);
    if Holds(other, h, u[m].id) {
      AllHeldAreNodes(other, h, u[m].id);
    }
    if m > 0 {
      assert u[1..][m - 1] == u[m];
      AllMomentsWithin(mine, u[1..], o, m - 1);
    } else if Holds(mine, h, u[m].id) {
      AllHeldAreNodes(mine, h, u[m].id);
    }
    b := LoopsAreEntered(mine, u[1..], o, h, m - 1);
    assert forall q :: b + 1 <= q <= m ==> u[1..][q - 1] == u[q];
    b := b + 1;
  }

  /** The loop's own moments are not held by a loop inside it, so the moment is
      in some execution of its body. */
  lemma {:induction false} BodyIsEntered(s: Stmt, u: seq<Moment>, o: Outcome, h: NodeId, m: nat) returns (b: nat)
    requires s.Loop? && Performs(s, u, o) && NoRepeats(Nodes(s))
    requires m < |u| && Holds(Sequence(s.body), h, u[m].id) && u[m] != ForInit(h) && u[m].id != s.id
    ensures EnteredIn(s, u, h, b, m)
    decreases |u|, Size(s), 0
  {
    hide PerformsAll, Holds, Nodes, NodesOf, ComesRound;
    LoopDistinct(s);
    match s.kind
    case While => b := RoundsAreEntered(s, u, o, h, m);
    case For =>
      assert u[1..][m - 1] == u[m];
      b := RoundsAreEntered(s, u[1..], o, h, m - 1);
      assert forall q :: b + 1 <= q <= m ==> u[1..][q - 1] == u[q];
      b := b + 1;
    case Do => b := DoIsEntered(s, u, o, h, m);
  }

  lemma {:induction false} RoundsAreEntered(s: Stmt, u: seq<Moment>, o: Outcome, h: NodeId, m: nat) returns (b: nat)
    requires s.Loop? && PerformsRounds(s, u, o) && NoRepeats(NodesOf(Sequence(s.body)))
    requires m < |u| && Holds(Sequence(s.body), h, u[m].id) && u[m] != ForInit(h) && u[m].id != s.id
    ensures EnteredBefore(Sequence(s.body), u, h, b, m)
    decreases |u|, SizeAll(Sequence(s.body)), 5
  {
    hide PerformsAll, Holds, NodesOf, ComesRound;
    var body := Sequence(s.body);
    if o == Normal && PerformsAll(body, u[1..], Broke) {
      assert u[1..][m - 1] == u[m];
      b := LoopsAreEntered(body, u[1..], Broke, h, m - 1);
      EnteredShifted(body, u, u[1..], 1, h, b, m - 1);
      b := b + 1;
    } else if o == Returned && PerformsAll(body, u[1..], Returned) {
      assert u[1..][m - 1] == u[m];
      b := LoopsAreEntered(body, u[1..], Returned, h, m - 1);
      EnteredShifted(body, u, u[1..], 1, h, b, m - 1);
      b := b + 1;
    } else {
      assert m > 0;
      var k :| 1 <= k <= |u| && ComesRound(s, u[1..k]) && Comeback(s) <= u[k..]
               && PerformsRounds(s, u[k..][|Comeback(s)|..], o);
      b := RoundIsEntered(s, u, k, o, h, m);
    }
  }

  lemma {:induction false} RoundIsEntered(s: Stmt, u: seq<Moment>, k: int, o: Outcome, h: NodeId, m: nat) returns (b: nat)
    requires s.Loop? && 1 <= k <= |u| && RoundEnds(s, u, k, o) && NoRepeats(NodesOf(Sequence(s.body)))
    requires 0 < m < |u| && Holds(Sequence(s.body), h, u[m].id) && u[m] != ForInit(h) && u[m].id != s.id
    ensures EnteredBefore(Sequence(s.body), u, h, b, m)
    decreases |u|, SizeAll(Sequence(s.body)), 4
  {
    hide PerformsAll, Holds, NodesOf, ComesRound, PerformsRounds;
    var c := k + |Comeback(s)|;
    if m < k {
      assert u[1..k][m - 1] == u[m];
      b := ThisRoundIsEntered(s, u[1..k], h, m - 1);
      EnteredShifted(Sequence(s.body), u, u[1..k], 1, h, b, m - 1);
      b := b + 1;
    } else {
      if m < c {
        ComebackIsItsOwn(s, u, k, m);
      }
      var w := u[k..][|Comeback(s)|..];
      assert w[m - c] == u[m] && w == u[c..c + |w|];
      b := RoundsAreEntered(s, w, o, h, m - c);
      EnteredShifted(Sequence(s.body), u, w, c, h, b, m - c);
      b := b + c;
    }
  }

  lemma ComebackIsItsOwn(s: Stmt, u: seq<Moment>, k: int, m: int)
    requires s.Loop? && 0 <= k <= |u| && Comeback(s) <= u[k..] && k <= m < k + |Comeback(s)|
    ensures u[m].id == s.id
  {
    assert u[k..][m - k] == u[m];
  }

  lemma {:induction false} ThisRoundIsEntered(s: Stmt, u: seq<Moment>, h: NodeId, m: nat) returns (b: nat)
    requires s.Loop? && ComesRound(s, u) && NoRepeats(NodesOf(Sequence(s.body)))
    requires m < |u| && Holds(Sequence(s.body), h, u[m].id) && u[m] != ForInit(h)
    ensures EnteredBefore(Sequence(s.body), u, h, b, m)
    decreases |u|, SizeAll(Sequence(s.body)), 3
  {
    if PerformsAll(Sequence(s.body), u, Normal) {
      b := LoopsAreEntered(Sequence(s.body), u, Normal, h, m);
    } else {
      b := LoopsAreEntered(Sequence(s.body), u, Continued, h, m);
    }
  }

  lemma {:induction false} DoIsEntered(s: Stmt, u: seq<Moment>, o: Outcome, h: NodeId, m: nat) returns (b: nat)
    requires s.Loop? && PerformsDo(s, u, o) && NoRepeats(NodesOf(Sequence(s.body)))
    requires m < |u| && Holds(Sequence(s.body), h, u[m].id) && u[m] != ForInit(h) && u[m].id != s.id
    ensures EnteredBefore(Sequence(s.body), u, h, b, m)
    decreases |u|, SizeAll(Sequence(s.body)), 5
  {
    hide PerformsAll, Holds, NodesOf, ComesRound;
    var body := Sequence(s.body);
    if o == Normal && PerformsAll(body, u, Broke) {
      b := LoopsAreEntered(body, u, Broke, h, m);
    } else if o == Returned && PerformsAll(body, u, Returned) {
      b := LoopsAreEntered(body, u, Returned, h, m);
    } else {
      var k :| 0 <= k < |u| && ComesRound(s, u[..k]) && u[k] == Visit(s.id)
               && ((k + 1 == |u| && o == Normal) || PerformsDo(s, u[k + 1..], o));
      b := DoRoundIsEntered(s, u, k, o, h, m);
    }
  }

  lemma {:induction false} DoRoundIsEntered(s: Stmt, u: seq<Moment>, k: int, o: Outcome, h: NodeId, m: nat) returns (b: nat)
    requires s.Loop? && NoRepeats(NodesOf(Sequence(s.body)))
    requires 0 <= k < |u| && ComesRound(s, u[..k]) && u[k] == Visit(s.id)
    requires (k + 1 == |u| && o == Normal) || PerformsDo(s, u[k + 1..], o)
    requires m < |u| && Holds(Sequence(s.body), h, u[m].id) && u[m] != ForInit(h) && u[m].id != s.id
    ensures EnteredBefore(Sequence(s.body), u, h, b, m)
    decreases |u|, SizeAll(Sequence(s.body)), 4
  {
    hide PerformsDo, Holds, NodesOf, ComesRound;
    var body := Sequence(s.body);
    if m < k {
      assert u[..k][m] == u[m] && u[0..0 + |u[..k]|] == u[..k];
      b := ThisRoundIsEntered(s, u[..k], h, m);
      EnteredShifted(body, u, u[..k], 0, h, b, m);
    } else {
      var w := u[k + 1..];
      assert w[m - k - 1] == u[m] && w == u[k + 1..k + 1 + |w|];
      b := DoIsEntered(s, w, o, h, m - k - 1);
      EnteredShifted(body, u, w, k + 1, h, b, m - k - 1);
      b := b + k + 1;
    }
  }

  // ------------------------------------------------------------------
  // Moments and the nodes met
  // ------------------------------------------------------------------

  lemma CountMonotone(u: seq<Moment>, m: nat, n: nat)
    requires m <= n <= |u|
    ensures Count(u, m) <= Count(u, n) <= |Met(u)|
  {
    hide Met;
    assert u[..n] == u[..m] + u[m..n] && u == u[..n] + u[n..];
    MetAppend(u[..m], u[m..n]);
    MetAppend(u[..n], u[n..]);
  }

  /** A moment counts as the node met with it, or right after it. */
  lemma MetWith(body: seq<Stmt>, u: seq<Moment>, m: nat)
    requires Paired(body, u) && m < |u|
    ensures Count(u, m) < |Met(u)| && Met(u)[Count(u, m)] == u[m].id
  {
    hide Met, Holds;
    if u[m].Visit? {
      MetAt(u, m);
    } else {
      MetAt(u, m + 1);
      NotCounted(u, m);
    }
  }

  lemma NotCounted(u: seq<Moment>, m: nat)
    requires m < |u| && !u[m].Visit?
    ensures Count(u, m + 1) == Count(u, m)
  {
    assert u[..m + 1] == u[..m] + [u[m]];
    assert [u[m]][1..] == [];
    MetAppend(u[..m], [u[m]]);
  }

  /** The moment at which node number `r` is met. */
  lemma {:induction false} MomentOf(u: seq<Moment>, r: nat, n: nat) returns (m: nat)
    requires n <= |u| && r < Count(u, n)
    ensures m < n && u[m].Visit? && Count(u, m) == r && r < |Met(u)| && Met(u)[r] == u[m].id
    decreases n
  {
    hide Met;
    if n == 0 {
      NothingMet(u[..0]);
    }
    if r < Count(u, n - 1) {
      m := MomentOf(u, r, n - 1);
    } else {
      if !u[n - 1].Visit? {
        NotCounted(u, n - 1);
      }
      m := n - 1;
      MetAt(u, m);
    }
  }

  /** The moment of a node between two others lies between theirs. */
  lemma MomentBetween(u: seq<Moment>, i: nat, j: nat, r: nat) returns (m: nat)
    requires i < |u| && u[i].Visit? && j <= |u| && Count(u, i) <= r < Count(u, j)
    ensures i <= m < j && u[m].Visit? && Count(u, m) == r && r < |Met(u)| && Met(u)[r] == u[m].id
    ensures r > Count(u, i) <==> i < m
  {
    hide Met;
    m := MomentOf(u, r, j);
    if m < i {
      MetAt(u, m);
      CountMonotone(u, m + 1, i);
    }
    if i < m {
      MetAt(u, i);
      CountMonotone(u, i + 1, m);
    }
  }

  /** Between a node outside a `for` loop and a later one in its body, a run
      meets the loop's header. */
  lemma HeaderBetween(body: seq<Stmt>, u: seq<Moment>, h: NodeId, a: nat, c: nat) returns (r: nat)
    requires Performance(body, u) && NoRepeats(NodesOf(body))
    requires a < c < |Met(u)| && !Holds(body, h, Met(u)[a])
    requires Holds(body, h, Met(u)[c]) && Met(u)[c] != h
    ensures a < r < c && Met(u)[r] == h
  {
    hide Met, Holds, NodesOf, PerformsAll, Paired;
    PerformanceIsRun(body, u);
    assert u[..|u|] == u;
    var i := MomentOf(u, a, |u|);
    var j := MomentOf(u, c, |u|);
    assert !Holds(body, h, u[i].id);
    if j < i {
      CountMonotone(u, j, i);
    }
    var b := LoopsAreEntered(body, u, if PerformsAll(body, u, Normal) then Normal else Returned, h, j);
    r := HeaderMet(body, u, h, i, b, j);
  }

  lemma HeaderMet(body: seq<Stmt>, u: seq<Moment>, h: NodeId, i: nat, b: nat, j: nat) returns (r: nat)
    requires Paired(body, u) && i < b < j < |u| && u[i].Visit? && u[b] == ForInit(h) && u[j].Visit? && u[j].id != h
    ensures Count(u, i) < r < Count(u, j) && Count(u, j) <= |Met(u)| && Met(u)[r] == h
  {
    hide Met, Holds;
    assert u[b + 1] == Visit(h);
    r := Count(u, b + 1);
    MetAt(u, i);
    MetAt(u, b + 1);
    CountMonotone(u, i + 1, b + 1);
    CountMonotone(u, b + 2, j);
  }
}
