/** From runs in C to the report of dead stores. The engine lists the init and
    the step of a `for` with its test, in front of the body; a store that C goes
    on to read is taken for dead only where that puts an overwriting in the way. */
module EndToEndStores {
  import opened Collections
  import opened Ast
  import opened Runs
  import opened Moments
  import opened Paths
  import opened CfgSpec
  import opened CfgNodes
  import opened CfgPaths
  import opened CfgTheorem
  import opened CfgPrune
  import opened FlowModel
  import opened Sources
  import opened Liveness
  import opened EndToEndReads

  /** The references performed in a run. */
  function Performed(src: Source, u: seq<Moment>): seq<Event>
  {
    if u == [] then [] else src.Of(u[0]) + Performed(src, u[1..])
  }

  /** What a run in C performs after event `k` of its moment `i`. */
  function PerformedAfter(src: Source, u: seq<Moment>, i: nat, k: nat): seq<Event>
    requires i < |u| && k < |src.Of(u[i])|
  {
    src.Of(u[i])[k + 1..] + Performed(src, u[i + 1..])
  }

  /** The first reference to `x` overwrites it. */
  predicate Overwrites(events: seq<Event>, x: string)
  {
    Mentions(events, x) && !NextReads(events, x)
  }

  predicate Stores(events: seq<Event>, x: string)
  {
    exists i :: 0 <= i < |events| && events[i].name == x && events[i].PureWrite()
  }

  lemma {:induction false} OverwritingStores(events: seq<Event>, x: string)
    requires Overwrites(events, x)
    ensures Stores(events, x)
  {
    MentionsCons(events, x);
    if events[0].name != x {
      OverwritingStores(events[1..], x);
      var i :| 0 <= i < |events[1..]| && events[1..][i].name == x && events[1..][i].PureWrite();
      assert events[i + 1] == events[1..][i];
    }
  }

  lemma {:induction false} ReadingMentions(events: seq<Event>, x: string)
    requires NextReads(events, x)
    ensures Mentions(events, x)
  {
    MentionsCons(events, x);
    if events[0].name != x {
      ReadingMentions(events[1..], x);
    }
  }

  lemma MentionsConcat(a: seq<Event>, b: seq<Event>, x: string)
    ensures Mentions(a + b, x) <==> Mentions(a, x) || Mentions(b, x)
  {
    if i :| 0 <= i < |a| && a[i].name == x {
      assert (a + b)[i] == a[i];
    }
    if i :| 0 <= i < |b| && b[i].name == x {
      assert (a + b)[i + |a|] == b[i];
    }
  }

  /** Reading and overwriting of one list after another. */
  lemma OneAfterAnother(a: seq<Event>, b: seq<Event>, x: string)
    ensures NextReads(a + b, x) <==> NextReads(a, x) || (!Mentions(a, x) && NextReads(b, x))
    ensures Overwrites(a + b, x) <==> Overwrites(a, x) || (!Mentions(a, x) && Overwrites(b, x))
    ensures Mentions(a + b, x) <==> Mentions(a, x) || Mentions(b, x)
  {
    hide Mentions, NextReads;
    NextReadsAppend(a, b, x);
    MentionsConcat(a, b, x);
    if NextReads(a, x) {
      ReadingMentions(a, x);
    }
  }

  // ------------------------------------------------------------------
  // Where the order of a header does no harm
  // ------------------------------------------------------------------

  /** For a store of `x` at moment `m`, the order of no header hides what reads it:
      steps only read `x` or update it, a test that overwrites `x` comes with a
      step that leaves it alone, and a loop whose init overwrites `x` has the
      store in that init or not at all. */
  ghost predicate HeadersHarmless(src: Source, m: Moment, x: string)
  {
    forall h :: IsFor(src.body, h) ==>
      && !Stores(src.Of(ForStep(h)), x)
      && (Overwrites(src.Of(Visit(h)), x) ==> !Mentions(src.Of(ForStep(h)), x))
      && (Overwrites(src.Of(ForInit(h)), x) && Holds(src.body, h, m.id) ==> m == ForInit(h))
  }

  lemma HarmlessAt(src: Source, m: Moment, x: string, h: NodeId)
    requires HeadersHarmless(src, m, x) && IsFor(src.body, h)
    ensures !Overwrites(src.Of(ForStep(h)), x) && !Stores(src.Of(ForStep(h)), x)
    ensures Overwrites(src.Of(Visit(h)), x) ==> !Mentions(src.Of(ForStep(h)), x)
    ensures Overwrites(src.Of(ForInit(h)), x) && Holds(src.body, h, m.id) ==> m == ForInit(h)
  {
    hide Holds, Source.Of, Overwrites, Stores, Mentions;
    if Overwrites(src.Of(ForStep(h)), x) {
      OverwritingStores(src.Of(ForStep(h)), x);
    }
  }

  /** In the run `u`, what event `k` of moment `i` stores in `x` is next referred
      to at moment `j`, which reads it. */
  ghost predicate ReadAt(src: Source, u: seq<Moment>, i: nat, k: nat, x: string, j: nat)
  {
    && i < j < |u| && k < |src.Of(u[i])|
    && !Mentions(src.Of(u[i])[k + 1..], x)
    && (forall m :: i < m < j ==> !Mentions(src.Of(u[m]), x))
    && NextReads(src.Of(u[j]), x)
  }

  lemma {:induction false} ReaderOf(src: Source, u: seq<Moment>, x: string) returns (j: nat)
    requires NextReads(Performed(src, u), x)
    ensures j < |u| && NextReads(src.Of(u[j]), x) && forall m :: 0 <= m < j ==> !Mentions(src.Of(u[m]), x)
  {
    hide Mentions, NextReads, Source.Of;
    if u == [] {
      j := 0;
      NothingReads(x);
    } else {
      OneAfterAnother(src.Of(u[0]), Performed(src, u[1..]), x);
      if NextReads(src.Of(u[0]), x) {
        j := 0;
      } else {
        j := ReaderOf(src, u[1..], x);
        assert u[1..][j] == u[j + 1];
        forall m | 0 <= m < j + 1
          ensures !Mentions(src.Of(u[m]), x)
        {
          assert m > 0 ==> u[1..][m - 1] == u[m];
        }
        j := j + 1;
      }
    }
  }

  lemma NothingReads(x: string)
    ensures !NextReads([], x)
  {
  }

  lemma FindReader(src: Source, u: seq<Moment>, i: nat, k: nat, x: string) returns (j: nat)
    requires i < |u| && k < |src.Of(u[i])| && NextReads(PerformedAfter(src, u, i, k), x)
    ensures NextReads(src.Of(u[i])[k + 1..], x) || ReadAt(src, u, i, k, x, j)
  {
    hide Mentions, NextReads, Source.Of;
    OneAfterAnother(src.Of(u[i])[k + 1..], Performed(src, u[i + 1..]), x);
    if NextReads(src.Of(u[i])[k + 1..], x) {
      j := i;
    } else {
      var n := ReaderOf(src, u[i + 1..], x);
      j := n + i + 1;
      assert forall m :: i < m <= j ==> u[i + 1..][m - i - 1] == u[m];
    }
  }

  lemma UnmentionedBetween(src: Source, u: seq<Moment>, i: nat, k: nat, x: string, j: nat, m: nat)
    requires ReadAt(src, u, i, k, x, j) && i < m < j
    ensures !Mentions(src.Of(u[m]), x)
  {
  }

  // ------------------------------------------------------------------
  // From moments to what the engine lists
  // ------------------------------------------------------------------

  lemma ListedFor(src: Source, h: NodeId, x: string)
    requires IsFor(src.body, h)
    ensures var a, b, c := src.Of(ForInit(h)), src.Of(Visit(h)), src.Of(ForStep(h));
      && src.EventsOf(h) == a + b + c
      && (NextReads(src.EventsOf(h), x) <==>
          (NextReads(a, x) || (!Mentions(a, x) && (NextReads(b, x) || (!Mentions(b, x) && NextReads(c, x))))))
      && (Overwrites(src.EventsOf(h), x) <==>
          (Overwrites(a, x) || (!Mentions(a, x) && (Overwrites(b, x) || (!Mentions(b, x) && Overwrites(c, x))))))
  {
    hide Mentions, NextReads, Overwrites, Source.Of, Holds;
    var a, b, c := src.Of(ForInit(h)), src.Of(Visit(h)), src.Of(ForStep(h));
    assert a + b + c == a + (b + c);
    OneAfterAnother(a, b + c, x);
    OneAfterAnother(b, c, x);
  }

  /** The init of a loop that is gone round was performed before the store, or
      not at all since: an overwriting there is no part of the run. */
  lemma InitDoesNotOverwrite(src: Source, u: seq<Moment>, i: nat, k: nat, x: string, j: nat, m: nat)
    requires Performance(src.body, u) && NoRepeats(NodesOf(src.body))
    requires ReadAt(src, u, i, k, x, j) && HeadersHarmless(src, u[i], x)
    requires i < m <= j && IsFor(src.body, u[m].id) && u[m] != ForInit(u[m].id) && u[i] != ForInit(u[m].id)
    ensures !Overwrites(src.Of(ForInit(u[m].id)), x)
  {
    hide Holds, NodesOf, PerformsAll, Source.Of, Mentions, NextReads, Stores;
    var h := u[m].id;
    HarmlessAt(src, u[i], x, h);
    if Overwrites(src.Of(ForInit(h)), x) {
      assert !Holds(src.body, h, u[i].id);
      var b := LoopsAreEntered(src.body, u, if PerformsAll(src.body, u, Normal) then Normal else Returned, h, m);
      UnmentionedBetween(src, u, i, k, x, j, b);
    }
  }

  /** A node met between the store and the read overwrites nothing. */
  lemma MetBetween(src: Source, u: seq<Moment>, i: nat, k: nat, x: string, j: nat, m: nat)
    requires Performance(src.body, u) && NoRepeats(NodesOf(src.body))
    requires ReadAt(src, u, i, k, x, j) && HeadersHarmless(src, u[i], x)
    requires i < m < j && u[m].Visit? && u[m].id != u[i].id
    ensures !Overwrites(src.EventsOf(u[m].id), x)
  {
    hide Holds, NodesOf, Performance, Source.Of, Mentions, NextReads, HeadersHarmless;
    var h := u[m].id;
    UnmentionedBetween(src, u, i, k, x, j, m);
    if IsFor(src.body, h) {
      HarmlessAt(src, u[i], x, h);
      InitDoesNotOverwrite(src, u, i, k, x, j, m);
      ListedFor(src, h, x);
    }
  }

  /** The node of the read is listed as reading. */
  lemma MetAtRead(src: Source, u: seq<Moment>, i: nat, k: nat, x: string, j: nat)
    requires Performance(src.body, u) && NoRepeats(NodesOf(src.body))
    requires ReadAt(src, u, i, k, x, j) && HeadersHarmless(src, u[i], x)
    requires u[i].ForInit? && u[j].id == u[i].id ==> u[j].ForInit?
    ensures NextReads(src.EventsOf(u[j].id), x)
  {
    hide Holds, NodesOf, PerformsAll, Source.Of, Mentions, NextReads, HeadersHarmless;
    var h := u[j].id;
    PerformanceIsRun(src.body, u);
    if IsFor(src.body, h) {
      HarmlessAt(src, u[i], x, h);
      ListedFor(src, h, x);
      ReadingMentions(src.Of(u[j]), x);
      if !u[j].ForInit? {
        InitDoesNotOverwrite(src, u, i, k, x, j, j);
      }
    }
  }

  /** What the engine lists after the store in its own node reads `x`, or says
      nothing of it; in a header, the test and the step then say nothing either. */
  lemma RestOfNode(src: Source, u: seq<Moment>, i: nat, k: nat, x: string, j: nat)
    requires Performance(src.body, u) && ReadAt(src, u, i, k, x, j) && HeadersHarmless(src, u[i], x)
    requires src.Of(u[i])[k].name == x && src.Of(u[i])[k].PureWrite()
    ensures !u[i].ForStep?
    ensures var at := Offset(src, u[i]) + k;
      && at < |src.EventsOf(u[i].id)|
      && (NextReads(src.EventsOf(u[i].id)[at + 1..], x)
          || (&& !Mentions(src.EventsOf(u[i].id)[at + 1..], x)
              && (u[i].ForInit? ==> j > i + 1 && !Mentions(src.Of(Visit(u[i].id)), x) && !Mentions(src.Of(ForStep(u[i].id)), x))))
  {
    hide Holds, PerformsAll, Source.Of, Mentions, NextReads, HeadersHarmless, Offset, Source.EventsOf;
    var h := u[i].id;
    PerformanceIsRun(src.body, u);
    PartOf(src, u[i], k);
    StoresHere(src.Of(u[i]), k, x);
    if IsFor(src.body, h) {
      HarmlessAt(src, u[i], x, h);
      var rest, b, c := src.Of(u[i])[k + 1..], src.Of(Visit(h)), src.Of(ForStep(h));
      if u[i].Visit? {
        OneAfterAnother(rest, c, x);
      } else if u[i].ForInit? {
        assert u[i + 1] == Visit(h);
        OneAfterAnother(rest, b + c, x);
        OneAfterAnother(b, c, x);
        if j > i + 1 {
          UnmentionedBetween(src, u, i, k, x, j, i + 1);
        }
      }
    } else {
      assert src.Of(u[i])[k + 1..] + [] == src.Of(u[i])[k + 1..];
    }
  }

  lemma StoresHere(events: seq<Event>, k: nat, x: string)
    requires k < |events| && events[k].name == x && events[k].PureWrite()
    ensures Stores(events, x)
  {
  }

  // ------------------------------------------------------------------
  // Skipping rounds
  // ------------------------------------------------------------------

  /** A complete run that meets a node twice is still a complete run without
      what lies between: conditions are free choices. */
  lemma RunsMaySkip(body: seq<Stmt>, t: seq<NodeId>, a: nat, b: nat)
    requires Faithful(body) && NoRepeats(NodesOf(body)) && CompleteRun(InC, body, t)
    requires a <= b < |t| && t[a] == t[b]
    ensures CompleteRun(InC, body, t[..a + 1] + t[b + 1..])
  {
    hide RawGraph, CompleteRun, RegularAll, CleanAll, Trace, NodesOf, StatementsOnce, WellFormed;
    var g := RawGraph(body);
    var n := NetOf(g);
    RawGraphExact(body, t);
    RawGraphWellFormed(body);
    RawGraphStatementsOnce(body);
    var p :| WalkFromTo(g.Arcs(), p, ENTRY, EXIT) && Trace(n, p) == t;
    assert p[..|p|] == p;
    var l, e := FindPosition(n, p, a, |p|);
    var m, f := FindPosition(n, p, b, |p|);
    PositionIs(n, p, l, e);
    PositionIs(n, p, m, f);
    OnePlace(g, p[l], e, p[m], f);
    if m < l {
      PositionOrder(n, p, m, l);
    }
    var q := SkipBlocks(g, p, l, m);
    TraceWithout(n, p, l, m, e);
    RawGraphExact(body, t[..a + 1] + t[b + 1..]);
  }

  lemma OnePlace(g: Cfg, b: int, i: nat, c: int, j: nat)
    requires StatementsOnce(g) && i < |At(NetOf(g), b)| && j < |At(NetOf(g), c)|
    requires At(NetOf(g), b)[i] == At(NetOf(g), c)[j]
    ensures b == c && i == j
  {
  }

  lemma SkipBlocks(g: Cfg, p: seq<int>, l: nat, m: nat) returns (q: seq<int>)
    requires WalkFromTo(g.Arcs(), p, ENTRY, EXIT) && l <= m < |p| && p[l] == p[m]
    ensures q == p[..l + 1] + p[m + 1..] && WalkFromTo(g.Arcs(), q, ENTRY, EXIT)
  {
    WalkFront(g.Arcs(), p, l + 1);
    WalkBack(g.Arcs(), p, m);
    JoinWalks(g.Arcs(), p[..l + 1], p[m..]);
    q := p[..l + 1] + p[m + 1..];
    assert p[m..][1..] == p[m + 1..] && Last(p[m..]) == Last(p);
  }

  lemma TraceWithout(n: Net, p: seq<int>, l: nat, m: nat, e: nat)
    requires l <= m < |p| && p[l] == p[m] && e < |At(n, p[l])|
    ensures var t := Trace(n, p);
      && Position(n, p, l, e) <= Position(n, p, m, e) < |t|
      && Trace(n, p[..l + 1] + p[m + 1..]) == t[..Position(n, p, l, e) + 1] + t[Position(n, p, m, e) + 1..]
  {
    hide Trace;
    if l < m {
      PositionOrder(n, p, l, m);
    }
    TraceParts(n, p, l);
    TraceParts(n, p, m);
    TraceSplit(n, p, l);
    TraceAppend(n, p[..l + 1], p[m + 1..]);
    CutAt(Trace(n, p[..l]), At(n, p[l]), Trace(n, p[l + 1..]), e);
    CutAt(Trace(n, p[..m]), At(n, p[l]), Trace(n, p[m + 1..]), e);
    Glued(Trace(n, p[..l]), At(n, p[l]), Trace(n, p[m + 1..]), e);
  }

  lemma Glued<T>(a: seq<T>, b: seq<T>, c: seq<T>, e: nat)
    requires e < |b|
    ensures a + b[..e + 1] + (b[e + 1..] + c) == a + b + c
  {
  }

  lemma TraceParts(n: Net, p: seq<int>, l: nat)
    requires l < |p|
    ensures Trace(n, p) == Trace(n, p[..l]) + At(n, p[l]) + Trace(n, p[l + 1..])
  {
    hide Trace;
    assert p == p[..l + 1] + p[l + 1..];
    TraceSplit(n, p, l);
    TraceAppend(n, p[..l + 1], p[l + 1..]);
  }

  lemma CutAt<T>(a: seq<T>, b: seq<T>, c: seq<T>, e: nat)
    requires e < |b|
    ensures (a + b + c)[..|a| + e + 1] == a + b[..e + 1] && (a + b + c)[|a| + e + 1..] == b[e + 1..] + c
  {
  }

  // ------------------------------------------------------------------
  // The theorem
  // ------------------------------------------------------------------

  /** The last place before `c` where node `t[a]` is met. */
  lemma {:induction false} LastBefore(t: seq<NodeId>, a: nat, c: nat) returns (b: nat)
    requires a < c <= |t|
    ensures a <= b < c && t[b] == t[a] && forall r :: b < r < c ==> t[r] != t[a]
    decreases c
  {
    if t[c - 1] == t[a] {
      b := c - 1;
    } else {
      b := LastBefore(t, a, c - 1);
    }
  }

  lemma {:induction false} StreamReads(src: Source, ids: seq<NodeId>, c: nat, x: string)
    requires c < |ids| && NextReads(src.EventsOf(ids[c]), x)
    requires forall r :: 0 <= r < c ==> !Overwrites(src.EventsOf(ids[r]), x)
    ensures NextReads(EventsIn(src, ids), x)
    decreases |ids|
  {
    hide NextReads, Mentions, Source.EventsOf, EventsIn;
    assert ids == [ids[0]] + ids[1..];
    EventsAppend(src, [ids[0]], ids[1..]);
    EventsOfOne(src, ids[0]);
    OneAfterAnother(src.EventsOf(ids[0]), EventsIn(src, ids[1..]), x);
    if c > 0 && !Mentions(src.EventsOf(ids[0]), x) {
      StreamReads(src, ids[1..], c - 1, x);
    }
  }

  lemma EventsOfOne(src: Source, id: NodeId)
    ensures EventsIn(src, [id]) == src.EventsOf(id)
  {
    assert [id][..0] == [];
    assert EventsIn(src, [id][..0]) == [];
  }

  /** A store that some run in C of a faithfully built body goes on to read is
      read on a path from the place of its statement, when no header is in the way. */
  lemma ReadStoreIsReadLater(src: Source, g: Cfg, u: seq<Moment>, i: nat, k: nat, x: string) returns (b: int, o: nat)
    requires Faithful(src.body) && NoRepeats(NodesOf(src.body)) && PrunedTo(RawGraph(src.body), g)
    requires Performance(src.body, u) && i < |u| && k < |src.Of(u[i])|
    requires src.Of(u[i])[k].name == x && src.Of(u[i])[k].PureWrite() && NextReads(PerformedAfter(src, u, i, k), x)
    requires HeadersHarmless(src, u[i], x)
    ensures b in g.blocks && o < |g.blocks[b]| && g.blocks[b][o] == u[i].id
    ensures var index := |EventsIn(src, g.blocks[b][..o])| + Offset(src, u[i]) + k;
            index < |ProgramOf(src, g).EventsAt(b)| && ReadLater(ProgramOf(src, g), b, index, x)
  {
    hide RawGraph, CompleteRun, RegularAll, CleanAll, PrunedTo, ProgramOf, NextReads, Mentions, Performance, NodesOf, Met,
         ReadLater, Onward, Source.Of, Source.EventsOf, HeadersHarmless, Offset, PerformedAfter, EventsIn;
    var t := SomeRunReads(src, u, i, k, x);
    b, o := PathStoreIsReadLater(src, g, t, Count(u, i), Offset(src, u[i]) + k, x);
  }

  /** A run of nodes in which the listed references after the store read it: the
      run's own, without the rounds of a loop whose init is the store. */
  lemma SomeRunReads(src: Source, u: seq<Moment>, i: nat, k: nat, x: string) returns (t: seq<NodeId>)
    requires Faithful(src.body) && NoRepeats(NodesOf(src.body))
    requires Performance(src.body, u) && i < |u| && k < |src.Of(u[i])|
    requires src.Of(u[i])[k].name == x && src.Of(u[i])[k].PureWrite() && NextReads(PerformedAfter(src, u, i, k), x)
    requires HeadersHarmless(src, u[i], x)
    ensures CompleteRun(InC, src.body, t) && Count(u, i) < |t| && t[Count(u, i)] == u[i].id
    ensures Offset(src, u[i]) + k < |src.EventsOf(u[i].id)|
    ensures NextReads(Onward(src, t, Count(u, i), Offset(src, u[i]) + k), x)
  {
    hide CompleteRun, RegularAll, CleanAll, NextReads, Mentions, Performance, NodesOf, Met, Source.Of, Source.EventsOf,
         HeadersHarmless, Offset, PerformedAfter, EventsIn;
    var a, at := Count(u, i), Offset(src, u[i]) + k;
    PerformanceIsRun(src.body, u);
    MetWith(src.body, u, i);
    t := Met(u);
    var j := FindReader(src, u, i, k, x);
    if NextReads(src.Of(u[i])[k + 1..], x) {
      OwnPartReads(src, u, i, k, x);
      OneAfterAnother(src.EventsOf(u[i].id)[at + 1..], EventsIn(src, t[a + 1..]), x);
    } else {
      RestOfNode(src, u, i, k, x, j);
      if NextReads(src.EventsOf(u[i].id)[at + 1..], x) {
        OneAfterAnother(src.EventsOf(u[i].id)[at + 1..], EventsIn(src, t[a + 1..]), x);
      } else {
        t := RunWithoutRounds(src, u, i, k, x, j);
        OneAfterAnother(src.EventsOf(u[i].id)[at + 1..], EventsIn(src, t[a + 1..]), x);
      }
    }
  }

  lemma OwnPartReads(src: Source, u: seq<Moment>, i: nat, k: nat, x: string)
    requires Performance(src.body, u) && i < |u| && k < |src.Of(u[i])| && NextReads(src.Of(u[i])[k + 1..], x)
    ensures var at := Offset(src, u[i]) + k;
      at < |src.EventsOf(u[i].id)| && NextReads(src.EventsOf(u[i].id)[at + 1..], x)
  {
    hide Holds, Performance, Source.Of, Mentions, NextReads, Offset, Source.EventsOf;
    PerformanceIsRun(src.body, u);
    PartOf(src, u[i], k);
    var h := u[i].id;
    var more := if !IsFor(src.body, h) || u[i].ForStep? then []
                else if u[i].Visit? then src.Of(ForStep(h))
                else src.Of(Visit(h)) + src.Of(ForStep(h));
    OneAfterAnother(src.Of(u[i])[k + 1..], more, x);
  }

  lemma RunWithoutRounds(src: Source, u: seq<Moment>, i: nat, k: nat, x: string, j: nat) returns (t: seq<NodeId>)
    requires Faithful(src.body) && NoRepeats(NodesOf(src.body)) && Performance(src.body, u)
    requires ReadAt(src, u, i, k, x, j) && HeadersHarmless(src, u[i], x)
    requires src.Of(u[i])[k].name == x && src.Of(u[i])[k].PureWrite() && !u[i].ForStep?
    requires u[i].ForInit? ==> j > i + 1 && !Mentions(src.Of(Visit(u[i].id)), x) && !Mentions(src.Of(ForStep(u[i].id)), x)
    ensures CompleteRun(InC, src.body, t) && Count(u, i) < |t| && t[Count(u, i)] == u[i].id
    ensures NextReads(EventsIn(src, t[Count(u, i) + 1..]), x)
  {
    hide CompleteRun, RegularAll, CleanAll, NextReads, Mentions, Performance, NodesOf, Met, Source.Of, Source.EventsOf,
         HeadersHarmless, EventsIn;
    PerformanceIsRun(src.body, u);
    MetWith(src.body, u, i);
    MetWith(src.body, u, j);
    LaterNode(src.body, u, i, j);
    var all, a, c := Met(u), Count(u, i), Count(u, j);
    var b := LastBefore(all, a, c);
    RunsMaySkip(src.body, all, a, b);
    t := all[..a + 1] + all[b + 1..];
    assert t[a + 1..] == all[b + 1..] && t[a] == all[a];
    ReadAtNode(src, u, i, k, x, j);
    var rest := all[b + 1..];
    forall r | 0 <= r < c - b - 1
      ensures !Overwrites(src.EventsOf(rest[r]), x)
    {
      var m := MomentAfter(u, i, j, b + 1 + r);
      MetBetween(src, u, i, k, x, j, m);
    }
    StreamReads(src, rest, c - b - 1, x);
  }

  lemma LaterNode(body: seq<Stmt>, u: seq<Moment>, i: nat, j: nat)
    requires Paired(body, u) && i < j < |u| && !u[i].ForStep? && (u[i].ForInit? ==> j > i + 1)
    ensures Count(u, i) < Count(u, j)
  {
    hide Met, Holds;
    var m := if u[i].Visit? then i else i + 1;
    MetAt(u, m);
    CountMonotone(u, i, m);
    CountMonotone(u, m + 1, j);
  }

  lemma ReadAtNode(src: Source, u: seq<Moment>, i: nat, k: nat, x: string, j: nat)
    requires Performance(src.body, u) && NoRepeats(NodesOf(src.body))
    requires ReadAt(src, u, i, k, x, j) && HeadersHarmless(src, u[i], x)
    requires u[i].ForInit? ==> !Mentions(src.Of(Visit(u[i].id)), x) && !Mentions(src.Of(ForStep(u[i].id)), x)
    ensures NextReads(src.EventsOf(u[j].id), x)
  {
    hide Performance, NodesOf, Source.Of, Source.EventsOf, Mentions, NextReads, HeadersHarmless;
    ReadingMentions(src.Of(u[j]), x);
    MetAtRead(src, u, i, k, x, j);
  }

  lemma MomentAfter(u: seq<Moment>, i: nat, j: nat, r: nat) returns (m: nat)
    requires i < j <= |u| && Count(u, i) < r < Count(u, j)
    ensures i < m < j && u[m].Visit? && r < |Met(u)| && Met(u)[r] == u[m].id
  {
    hide Met;
    m := MomentOf(u, r, j);
    if m <= i {
      CountMonotone(u, m, i);
    }
  }

  /** In no run in C of a faithfully built body does anything read a reported store,
      when no header is in the way: the next reference to the variable, if there is
      one, overwrites it. */
  lemma DeadStoreIsNeverRead(src: Source, g: Cfg, u: seq<Moment>, i: nat, k: nat, b: int, o: nat)
    requires Faithful(src.body) && NoRepeats(NodesOf(src.body)) && PrunedTo(RawGraph(src.body), g)
    requires Performance(src.body, u) && i < |u| && k < |src.Of(u[i])|
    requires b in g.blocks && o < |g.blocks[b]| && g.blocks[b][o] == u[i].id
    requires DeadStore(ProgramOf(src, g), b, |EventsIn(src, g.blocks[b][..o])| + Offset(src, u[i]) + k)
    requires HeadersHarmless(src, u[i], src.Of(u[i])[k].name)
    ensures !NextReads(PerformedAfter(src, u, i, k), src.Of(u[i])[k].name)
  {
    hide RawGraph, RegularAll, CleanAll, PrunedTo, ProgramOf, EventsIn, NextReads, NodesOf, ReadLater, Performance, Source.Of,
         Source.EventsOf, HeadersHarmless, PerformedAfter, Offset, Holds;
    var x := src.Of(u[i])[k].name;
    if NextReads(PerformedAfter(src, u, i, k), x) {
      PerformanceIsRun(src.body, u);
      PartOf(src, u[i], k);
      ListedAt(src, g, b, o, Offset(src, u[i]) + k);
      var c, q := ReadStoreIsReadLater(src, g, u, i, k, x);
      PrunedGraphWellFormed(src.body, g);
      OnePlace(g, b, o, c, q);
      assert false;
    }
  }
}
