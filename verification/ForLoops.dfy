/** Where the place of a `for` header misleads the reports: stores hidden by a
    header, and concrete loops in which C reads what the engine says is never
    read, or reads an uninitialised local without a report. */
module ForLoops {
  import opened Collections
  import opened Ast
  import opened Runs
  import opened Moments
  import opened Paths
  import opened CfgSpec
  import opened CfgNodes
  import opened CfgPaths
  import opened CfgPrune
  import opened FlowModel
  import opened Sources
  import opened Liveness
  import opened EndToEndReads
  import opened EndToEndStores
  import ReachingDefs

  // ------------------------------------------------------------------
  // Stores that no path reads
  // ------------------------------------------------------------------

  /** Wherever a node is listed with a reference to `x`, the first one overwrites it. */
  ghost predicate AlwaysOverwritten(src: Source, x: string)
  {
    forall n :: Mentions(src.EventsOf(n), x) ==> Overwrites(src.EventsOf(n), x)
  }

  lemma {:induction false} NoStreamReads(src: Source, ids: seq<NodeId>, x: string)
    requires AlwaysOverwritten(src, x)
    ensures !NextReads(EventsIn(src, ids), x)
  {
    hide NextReads, Mentions, Source.EventsOf;
    if ids == [] {
      NothingReads(x);
    } else {
      var n := |ids| - 1;
      NoStreamReads(src, ids[..n], x);
      OneAfterAnother(EventsIn(src, ids[..n]), src.EventsOf(ids[n]), x);
      if NextReads(src.EventsOf(ids[n]), x) {
        ReadingMentions(src.EventsOf(ids[n]), x);
      }
    }
  }

  /** If every node that refers to `x` is listed with an overwriting first, then a
      store with nothing on `x` behind it in its node is reported: so are, in every
      body, the stores in the step and in the body of a `for` whose init overwrites
      `x`, when only its test and its step read `x`. */
  lemma OverwritersHideStores(src: Source, g: Cfg, b: int, o: nat, k: nat, x: string)
    requires AlwaysOverwritten(src, x) && b in g.blocks && o < |g.blocks[b]|
    requires var es := src.EventsOf(g.blocks[b][o]);
             k < |es| && es[k].name == x && es[k].PureWrite() && !Mentions(es[k + 1..], x)
    ensures DeadStore(ProgramOf(src, g), b, |EventsIn(src, g.blocks[b][..o])| + k)
  {
    hide ProgramOf, EventsIn, NextReads, Mentions, Source.EventsOf, AlwaysOverwritten, Stream;
    var p, index := ProgramOf(src, g), |EventsIn(src, g.blocks[b][..o])| + k;
    var ids := g.blocks[b];
    ProgramEvents(src, g, b);
    ListedAt(src, g, b, o, k);
    RestOfBlock(src, ids, o, k);
    var more := src.EventsOf(ids[o])[k + 1..];
    if NextReads(more, x) {
      ReadingMentions(more, x);
    }
    NoStreamReads(src, ids[o + 1..], x);
    OneAfterAnother(more, EventsIn(src, ids[o + 1..]), x);
    assert !NextReads(p.EventsAt(b)[index + 1..], x);
    forall w | IsWalk(p.Arcs(), w) && w[0] == b
      ensures !NextReads(p.EventsAt(b)[index + 1..] + Stream(p, w[1..]), x)
    {
      StreamIsEvents(src, g, w[1..]);
      NoStreamReads(src, Trace(NetOf(g), w[1..]), x);
      OneAfterAnother(p.EventsAt(b)[index + 1..], Stream(p, w[1..]), x);
    }
  }

  // ------------------------------------------------------------------
  // Concrete loops
  // ------------------------------------------------------------------

  function Read(x: string): Event
  {
    Event(x, false, false)
  }

  function Write(x: string): Event
  {
    Event(x, true, false)
  }

  function Update(x: string): Event
  {
    Event(x, true, true)
  }

  /** A `for` loop alone, with one statement in its body. */
  function Counting(): seq<Stmt>
  {
    [Loop(1, For, Some(Plain(2)))]
  }

  /** One round, and the test that ends the loop. */
  function OneRound(): seq<Moment>
  {
    [ForInit(1), Visit(1), Visit(2), ForStep(1), Visit(1)]
  }

  lemma BodyOnce()
    ensures PerformsAll([Plain(2)], [Visit(2)], Normal)
  {
    var u: seq<Moment> := [Visit(2)];
    assert u[..1] == u && u[1..] == [];
    assert Performs(Plain(2), u[..1], Normal) && PerformsAll([], u[1..], Normal);
  }

  lemma LoopOnce(s: Stmt, u: seq<Moment>)
    requires s == Loop(1, For, Some(Plain(2))) && u == OneRound()[1..]
    ensures PerformsRounds(s, u, Normal)
  {
    BodyOnce();
    assert u[1..2] == [Visit(2)] && Sequence(s.body) == [Plain(2)];
    assert ComesRound(s, u[1..2]);
    assert u[2..] == [ForStep(1), Visit(1)] && u[2..][1..] == [Visit(1)];
    assert Comeback(s) <= u[2..] && PerformsRounds(s, u[2..][|Comeback(s)|..], Normal);
  }

  lemma CountingShape()
    ensures Faithful(Counting()) && Ascending(NodesOf(Counting())) && IsFor(Counting(), 1) && !IsFor(Counting(), 2)
    ensures NodesOf(Counting()) == [1, 2]
  {
    var s := Counting()[0];
    assert NodesOf([Plain(2)]) == [2];
    assert Nodes(s) == [1, 2];
    assert NodesOf(Counting()) == Nodes(s) + NodesOf(Counting()[1..]);
    assert !Holds([Plain(2)], 2, 2);
  }

  lemma CountingRuns()
    ensures Performance(Counting(), OneRound())
  {
    hide PerformsRounds;
    var s, u := Counting()[0], OneRound();
    LoopOnce(s, u[1..]);
    assert Performs(s, u, Normal);
    assert u[..5] == u && u[5..] == [];
    assert PerformsOn(Counting(), u, 5, Normal) by {
      assert PerformsAll(Counting()[1..], u[5..], Normal);
    }
    PerformsSomewhere(Counting(), u, Normal);
  }

  /** `for (c = get(); c != EOF; c = get()) n++;` : the store in the step is reported,
      and the test reads it next. */
  function ReadLoop(): Source
  {
    Source(Counting(),
           map[ForInit(1) := [Write("c")], Visit(1) := [Read("c")], ForStep(1) := [Write("c")], Visit(2) := [Update("n")]],
           map[])
  }

  lemma StepStoreIsReadAndReported(g: Cfg) returns (b: int, o: nat)
    requires PrunedTo(RawGraph(Counting()), g)
    ensures Performance(Counting(), OneRound()) && OneRound()[3] == ForStep(1)
    ensures ReadLoop().Of(ForStep(1))[0] == Write("c")
    ensures NextReads(PerformedAfter(ReadLoop(), OneRound(), 3, 0), "c")
    ensures b in g.blocks && o < |g.blocks[b]| && g.blocks[b][o] == 1
    ensures DeadStore(ProgramOf(ReadLoop(), g), b,
                      |EventsIn(ReadLoop(), g.blocks[b][..o])| + Offset(ReadLoop(), ForStep(1)) + 0)
  {
    hide PrunedTo, RawGraph, Performance, ProgramOf, EventsIn, DeadStore;
    CountingShape();
    CountingRuns();
    var src, u := ReadLoop(), OneRound();
    b, o := PlaceOfMoment(src, g, u, 3);
    assert src.EventsOf(1) == [Write("c"), Read("c"), Write("c")];
    OverwrittenFirst(src, "c");
    OverwritersHideStores(src, g, b, o, 2, "c");
    assert Performed(src, u[4..]) == [Read("c")] by {
      assert u[4..] == [Visit(1)] && u[4..][1..] == [];
    }
    assert PerformedAfter(src, u, 3, 0) == [Read("c")];
  }

  /** `for (i = 0; i < n; i++) { i = j; }` : the store in the body is reported, and
      the step reads it next. */
  function OverwritingLoop(): Source
  {
    Source(Counting(),
           map[ForInit(1) := [Write("i")], Visit(1) := [Read("i"), Read("n")], ForStep(1) := [Update("i")],
               Visit(2) := [Write("i"), Read("j")]],
           map[])
  }

  lemma BodyStoreIsReadAndReported(g: Cfg) returns (b: int, o: nat)
    requires PrunedTo(RawGraph(Counting()), g)
    ensures Performance(Counting(), OneRound()) && OneRound()[2] == Visit(2)
    ensures OverwritingLoop().Of(Visit(2))[0] == Write("i")
    ensures NextReads(PerformedAfter(OverwritingLoop(), OneRound(), 2, 0), "i")
    ensures b in g.blocks && o < |g.blocks[b]| && g.blocks[b][o] == 2
    ensures DeadStore(ProgramOf(OverwritingLoop(), g), b,
                      |EventsIn(OverwritingLoop(), g.blocks[b][..o])| + Offset(OverwritingLoop(), Visit(2)) + 0)
  {
    hide PrunedTo, RawGraph, Performance, ProgramOf, EventsIn, DeadStore;
    CountingShape();
    CountingRuns();
    var src, u := OverwritingLoop(), OneRound();
    b, o := PlaceOfMoment(src, g, u, 2);
    OverwrittenFirst(src, "i");
    assert src.EventsOf(2) == [Write("i"), Read("j")];
    OverwritersHideStores(src, g, b, o, 0, "i");
    assert u[3..] == [ForStep(1), Visit(1)] && u[3..][1..] == [Visit(1)];
    assert PerformedAfter(src, u, 2, 0)[1] == Update("i");
  }

  lemma OverwrittenFirst(src: Source, x: string)
    requires (src == ReadLoop() && x == "c") || (src == OverwritingLoop() && x == "i")
    ensures AlwaysOverwritten(src, x)
  {
    CountingShape();
    forall n | Mentions(src.EventsOf(n), x)
      ensures Overwrites(src.EventsOf(n), x)
    {
      if IsFor(src.body, n) {
        AllHeldAreNodes(src.body, n, n);
      }
      assert n == 1 || n == 2;
      assert src.EventsOf(n)[0] == Write(x);
    }
  }

  /** `int x; for (; t; x = 1) use(x);` */
  function FirstRound(): Source
  {
    Source([Plain(1), Loop(2, For, Some(Plain(3)))],
           map[Visit(2) := [Read("t")], ForStep(2) := [Write("x")], Visit(3) := [Read("x")]],
           map[1 := "x"])
  }

  function FirstRoundRun(): seq<Moment>
  {
    [Visit(1), ForInit(2), Visit(2), Visit(3), ForStep(2), Visit(2)]
  }

  lemma FirstRoundShape()
    ensures var body := FirstRound().body;
      && Faithful(body) && NodesOf(body) == [1, 2, 3] && Ascending(NodesOf(body))
      && Holds(body, 2, 3) && !Holds(body, 2, 1) && forall h, n :: Holds(body, h, n) ==> h == 2
  {
    var body := FirstRound().body;
    assert NodesOf([Plain(3)]) == [3];
    assert Nodes(body[1]) == [2, 3];
    assert NodesOf(body[1..]) == [2, 3];
    assert body[1..][0] == body[1] && body[1..][1..] == [];
    forall h, n
      ensures Holds(body, h, n) <==> h == 2 && n in [2, 3]
    {
      assert !Holds([Plain(3)], h, n);
      assert Holds(body[1..], h, n) <==> HeldIn(body[1], h, n);
    }
  }

  lemma FirstRoundRuns()
    ensures Performance(FirstRound().body, FirstRoundRun())
  {
    hide PerformsRounds;
    var body, u := FirstRound().body, FirstRoundRun();
    FirstRoundLoop(body[1], u[2..]);
    var v := u[1..];
    assert v[1..] == u[2..] && v[..5] == v && v[5..] == [];
    assert Performs(body[1], v, Normal);
    assert PerformsAll(body[1..], v, Normal) by {
      assert body[1..][0] == body[1] && body[1..][1..] == [];
      assert PerformsOn(body[1..], v, 5, Normal);
      PerformsSomewhere(body[1..], v, Normal);
    }
    assert u[..1] == [Visit(1)];
    assert PerformsOn(body, u, 1, Normal);
    PerformsSomewhere(body, u, Normal);
  }

  lemma FirstRoundLoop(s: Stmt, u: seq<Moment>)
    requires s == Loop(2, For, Some(Plain(3))) && u == FirstRoundRun()[2..]
    ensures PerformsRounds(s, u, Normal)
  {
    var v: seq<Moment> := [Visit(3)];
    assert v[..1] == v && v[1..] == [];
    assert Performs(Plain(3), v[..1], Normal) && PerformsAll([], v[1..], Normal);
    assert u[1..2] == v && Sequence(s.body) == [Plain(3)];
    assert ComesRound(s, u[1..2]);
    assert u[2..] == [ForStep(2), Visit(2)] && u[2..][1..] == [Visit(2)];
    assert Comeback(s) <= u[2..] && PerformsRounds(s, u[2..][|Comeback(s)|..], Normal);
  }

  /** The first round reads `x` uninitialised, and nothing is reported. */
  lemma FirstRoundIsMissed(g: Cfg) returns (b: int, o: nat)
    requires PrunedTo(RawGraph(FirstRound().body), g)
    ensures Performance(FirstRound().body, FirstRoundRun())
    ensures ReadsUninitialized(FirstRound(), FirstRoundRun(), 0, 3, 0, "x")
    ensures b in g.blocks && o < |g.blocks[b]| && g.blocks[b][o] == 3
    ensures !ReachingDefs.UninitRead(ProgramOf(FirstRound(), g), b,
                                     |EventsIn(FirstRound(), g.blocks[b][..o])| + Offset(FirstRound(), Visit(3)) + 0)
  {
    hide PrunedTo, RawGraph, Performance, ProgramOf, EventsIn, ReachingDefs.UninitRead, NodesOf, RegularAll, CleanAll, Holds;
    FirstRoundShape();
    FirstRoundRuns();
    var src, u := FirstRound(), FirstRoundRun();
    assert src.Of(ForStep(2))[0] == Write("x") && WritesVar(src.Of(ForStep(2)), "x");
    b, o := UninitializedReadReported(src, g, u, 0, 3, 0, "x");
  }
}
