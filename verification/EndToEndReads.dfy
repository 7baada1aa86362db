/** From runs in C to the report of uninitialised reads. The engine lists the
    step of a `for` with its header, before the body; that hides a read exactly
    when the step of a loop around the read writes the variable. */
module EndToEndReads {
  import opened Collections
  import opened Ast
  import opened Runs
  import opened Moments
  import opened Paths
  import opened CfgSpec
  import opened CfgNodes
  import opened CfgPaths
  import opened CfgPrune
  import opened FlowModel
  import opened PrunedAnalyses
  import opened Sources
  import ReachingDefs

  /** In the run `u`, the local declared at moment `i` is read by event `k` of
      moment `j`, and nothing performed in between writes it. */
  ghost predicate ReadsUninitialized(src: Source, u: seq<Moment>, i: nat, j: nat, k: nat, x: string)
  {
    && i < j < |u|
    && u[i].Visit? && u[i].id in src.declares && src.declares[u[i].id] == x
    && k < |src.Of(u[j])|
    && src.Of(u[j])[k].name == x && src.Of(u[j])[k].Reads()
    && !WritesVar(src.Of(u[j])[..k], x)
    && forall m :: i <= m < j ==> !WritesVar(src.Of(u[m]), x)
  }

  /** The step of a `for` writes the variable only if its init or its test does. */
  predicate StepGuarded(src: Source, h: NodeId, x: string)
  {
    WritesVar(src.Of(ForStep(h)), x) ==> WritesVar(src.Of(ForInit(h)), x) || WritesVar(src.Of(Visit(h)), x)
  }

  lemma ReadInBetween(src: Source, u: seq<Moment>, i: nat, j: nat, k: nat, x: string, m: nat)
    requires ReadsUninitialized(src, u, i, j, k, x) && i <= m < j
    ensures !WritesVar(src.Of(u[m]), x)
  {
  }

  // ------------------------------------------------------------------
  // What the engine lists that the run did not perform
  // ------------------------------------------------------------------

  /** With ids in source order, a loop's header is the first node it holds. */
  lemma {:induction false} HeaderFirst(ss: seq<Stmt>, h: NodeId, n: NodeId)
    requires Ascending(NodesOf(ss)) && Holds(ss, h, n)
    ensures h <= n
    decreases SizeAll(ss), 1
  {
    var a, b := Nodes(ss[0]), NodesOf(ss[1..]);
    AscendingParts(a, b);
    if HeldIn(ss[0], h, n) {
      HeaderFirstIn(ss[0], h, n);
    } else {
      HeaderFirst(ss[1..], h, n);
    }
  }

  lemma {:induction false} HeaderFirstIn(s: Stmt, h: NodeId, n: NodeId)
    requires Ascending(Nodes(s)) && HeldIn(s, h, n)
    ensures h <= n
    decreases Size(s), 0
  {
    match s
    case If(id, th, el) =>
      AscendingParts([id] + NodesOf(Sequence(th)), NodesOf(Sequence(el)));
      AscendingParts([id], NodesOf(Sequence(th)));
      if Holds(Sequence(th), h, n) {
        HeaderFirst(Sequence(th), h, n);
      } else {
        HeaderFirst(Sequence(el), h, n);
      }
    case Loop(id, kind, b) =>
      AscendingParts([id], NodesOf(Sequence(b)));
      if kind.For? && id == h && n in Nodes(s) {
        FirstIsLeast(id, NodesOf(Sequence(b)), n);
      } else {
        HeaderFirst(Sequence(b), h, n);
      }
    case Switch(id, b) =>
      AscendingParts([id], NodesOf(Sequence(b)));
      HeaderFirst(Sequence(b), h, n);
    case Compound(_, ss) => HeaderFirst(ss, h, n);
  }

  lemma FirstIsLeast(id: NodeId, b: seq<NodeId>, n: NodeId)
    requires Ascending([id] + b) && n in [id] + b
    ensures id <= n
  {
    var k :| 0 <= k < |[id] + b| && ([id] + b)[k] == n;
    assert ([id] + b)[0] == id;
  }

  lemma AscendingParts(a: seq<NodeId>, b: seq<NodeId>)
    requires Ascending(a + b)
    ensures Ascending(a) && Ascending(b)
  {
    assert forall i :: 0 <= i < |a| ==> a[i] == (a + b)[i];
    assert forall i :: 0 <= i < |b| ==> b[i] == (a + b)[i + |a|];
  }

  /** When the header of a loop writes the variable, the run has performed the
      init and the test of that loop since the declaration. */
  lemma HeaderPerformed(src: Source, u: seq<Moment>, i: nat, j: nat, k: nat, x: string, h: NodeId, m: nat)
    requires Performance(src.body, u) && Ascending(NodesOf(src.body))
    requires ReadsUninitialized(src, u, i, j, k, x) && DeclaredBeforeUse(src, u[i].id, x)
    requires i < m <= j && u[m].id == h && IsFor(src.body, h) && u[m] != ForInit(h)
    requires WritesVar(src.EventsOf(h), x)
    ensures !WritesVar(src.Of(ForInit(h)), x)
    ensures u[m] == ForStep(h) ==> !WritesVar(src.Of(Visit(h)), x)
  {
    hide Holds, NodesOf, PerformsAll, WritesVar, Source.EventsOf, Source.Of, DeclaredBeforeUse, Paired, Ascending;
    WrittenAfterDeclaration(src, u[i].id, h, x);
    PerformanceIsRun(src.body, u);
    AscendingDistinct(NodesOf(src.body));
    var b := LoopsAreEntered(src.body, u, if PerformsAll(src.body, u, Normal) then Normal else Returned, h, m);
    if Holds(src.body, h, u[i].id) {
      HeaderFirst(src.body, h, u[i].id);
    }
    assert i < b;
    ReadInBetween(src, u, i, j, k, x, b);
    TestAfterInit(src.body, u, b);
    if u[m] == ForStep(h) {
      ReadInBetween(src, u, i, j, k, x, b + 1);
    }
  }

  lemma TestAfterInit(body: seq<Stmt>, u: seq<Moment>, b: nat)
    requires Paired(body, u) && b < |u| && u[b].ForInit?
    ensures b + 1 < |u| && u[b + 1] == Visit(u[b].id)
  {
  }

  lemma AscendingDistinct(s: seq<NodeId>)
    requires Ascending(s)
    ensures NoRepeats(s)
  {
  }

  /** A node met on the way has no write among the references listed for it. */
  lemma NotWrittenOnTheWay(src: Source, u: seq<Moment>, i: nat, j: nat, k: nat, x: string, m: nat)
    requires Performance(src.body, u) && Ascending(NodesOf(src.body))
    requires ReadsUninitialized(src, u, i, j, k, x) && DeclaredBeforeUse(src, u[i].id, x)
    requires i <= m < j && u[m].Visit?
    requires IsFor(src.body, u[m].id) && m > i ==> StepGuarded(src, u[m].id, x)
    ensures !WritesVar(src.EventsOf(u[m].id), x)
  {
    hide Holds, NodesOf, Performance, WritesVar, DeclaredBeforeUse, Ascending, Source.Of;
    var h := u[m].id;
    ReadInBetween(src, u, i, j, k, x, m);
    if WritesVar(src.EventsOf(h), x) {
      WrittenAfterDeclaration(src, u[i].id, h, x);
      if IsFor(src.body, h) {
        HeaderPerformed(src, u, i, j, k, x, h, m);
        HeaderWrites(src, h, x);
      }
    }
  }

  lemma HeaderWrites(src: Source, h: NodeId, x: string)
    requires IsFor(src.body, h)
    ensures WritesVar(src.EventsOf(h), x) <==>
      WritesVar(src.Of(ForInit(h)), x) || WritesVar(src.Of(Visit(h)), x) || WritesVar(src.Of(ForStep(h)), x)
  {
    hide WritesVar;
    WritesConcat(src.Of(ForInit(h)) + src.Of(Visit(h)), src.Of(ForStep(h)), x);
    WritesConcat(src.Of(ForInit(h)), src.Of(Visit(h)), x);
  }

  /** Nor is there one among those listed before the read in its own node. */
  lemma NotWrittenInFront(src: Source, u: seq<Moment>, i: nat, j: nat, k: nat, x: string)
    requires Performance(src.body, u) && Ascending(NodesOf(src.body))
    requires ReadsUninitialized(src, u, i, j, k, x) && DeclaredBeforeUse(src, u[i].id, x)
    ensures var id, at := u[j].id, Offset(src, u[j]) + k;
            at < |src.EventsOf(id)| && src.EventsOf(id)[at] == src.Of(u[j])[k] && !WritesVar(src.EventsOf(id)[..at], x)
  {
    hide Holds, NodesOf, PerformsAll, WritesVar, DeclaredBeforeUse, Ascending, Source.Of;
    PerformanceIsRun(src.body, u);
    var h := u[j].id;
    PartOf(src, u[j], k);
    assert [] + src.Of(u[j])[..k] == src.Of(u[j])[..k];
    if IsFor(src.body, h) && !u[j].ForInit? {
      var front := if u[j].Visit? then src.Of(ForInit(h)) else src.Of(ForInit(h)) + src.Of(Visit(h));
      WritesConcat(front, src.Of(u[j])[..k], x);
      WritesConcat(src.Of(ForInit(h)), src.Of(Visit(h)), x);
      HeaderWrites(src, h, x);
      if WritesVar(front, x) {
        HeaderPerformed(src, u, i, j, k, x, h, j);
      }
    }
  }

  // ------------------------------------------------------------------
  // When every step is guarded, the read is reported
  // ------------------------------------------------------------------

  /** The first place after `a` where node `v` is met. */
  lemma {:induction false} FirstAfter(t: seq<NodeId>, a: nat, c: nat) returns (f: nat)
    requires a < c < |t|
    ensures a < f <= c && t[f] == t[c] && forall r :: a < r < f ==> t[r] != t[c]
    decreases c - a
  {
    if t[a + 1] == t[c] {
      f := a + 1;
    } else {
      f := FirstAfter(t, a + 1, c);
    }
  }

  lemma CountsAround(body: seq<Stmt>, u: seq<Moment>, i: nat, j: nat)
    requires Performance(body, u) && i < j < |u| && u[i].Visit?
    ensures Count(u, i) < Count(u, j) < |Met(u)|
    ensures Met(u)[Count(u, i)] == u[i].id && Met(u)[Count(u, j)] == u[j].id
  {
    hide Performance, Met;
    PerformanceIsRun(body, u);
    MetAt(u, i);
    MetWith(body, u, j);
    CountMonotone(u, i + 1, j);
  }

  lemma ReadOnPath(src: Source, u: seq<Moment>, i: nat, j: nat, k: nat, x: string) returns (c: nat)
    requires Performance(src.body, u) && Ascending(NodesOf(src.body))
    requires ReadsUninitialized(src, u, i, j, k, x) && DeclaredBeforeUse(src, u[i].id, x)
    requires forall h :: IsFor(src.body, h) && h != u[j].id ==> StepGuarded(src, h, x)
    ensures ReadBeforeWrite(src, Met(u), Count(u, i), c, Offset(src, u[j]) + k, x)
    ensures c < |Met(u)| && Met(u)[c] == u[j].id
  {
    hide Holds, NodesOf, Performance, WritesVar, DeclaredBeforeUse, Ascending, Source.Of, Source.EventsOf, Met, Offset,
         StepGuarded;
    var a := Count(u, i);
    CountsAround(src.body, u, i, j);
    c := FirstAfter(Met(u), a, Count(u, j));
    NotWrittenInFront(src, u, i, j, k, x);
    forall r | a <= r < c
      ensures !WritesVar(src.EventsOf(Met(u)[r]), x)
    {
      var m := MomentBetween(u, i, j, r);
      NotWrittenOnTheWay(src, u, i, j, k, x, m);
    }
  }

  // ------------------------------------------------------------------
  // A loop around the read whose header writes hides it
  // ------------------------------------------------------------------

  /** `x` is declared without initialiser at `d` alone. */
  ghost predicate DeclaredOnlyAt(src: Source, d: NodeId, x: string)
  {
    forall n :: n in src.declares && src.declares[n] == x ==> n == d
  }

  lemma DeclarationPlace(src: Source, g: Cfg, b: int, d: NodeId, x: string) returns (q: nat)
    requires DeclaredOnlyAt(src, d, x) && ReachingDefs.DeclaredIn(ProgramOf(src, g), b, x)
    ensures b in g.blocks && q < |g.blocks[b]| && g.blocks[b][q] == d
  {
    AllDeclsExact(src, g, g.order, Decl(x, Some(b)));
    var c :| c in g.order && c in g.blocks && Decl(x, Some(b)) in DeclsIn(src, c, g.blocks[c]);
    DeclsInExact(src, c, g.blocks[c], Decl(x, Some(b)));
    q :| 0 <= q < |g.blocks[c]| && g.blocks[c][q] in src.declares && Decl(x, Some(b)) == Decl(src.declares[g.blocks[c][q]], Some(c));
  }

  /** A path that brings the declaration to block `b`. */
  lemma BringingPath(src: Source, g: Cfg, b: int, index: int, x: string) returns (w: seq<int>)
    requires WellFormed(g) && ReachingDefs.UninitRead(ProgramOf(src, g), b, index)
    requires ProgramOf(src, g).EventsAt(b)[index].name == x
    ensures IsWalk(g.Arcs(), w) && Last(w) == b && ReachingDefs.DeclaredIn(ProgramOf(src, g), w[0], x)
    ensures forall r :: 0 <= r < |w| - 1 ==> !WritesVar(EventsIn(src, At(NetOf(g), w[r])), x)
    ensures b in g.blocks && 0 <= index < |EventsIn(src, g.blocks[b])| && !WritesVar(EventsIn(src, g.blocks[b])[..index], x)
  {
    hide ProgramOf, EventsIn, WritesVar, ReachingDefs.DeclaredIn, WellFormed;
    var prog := ProgramOf(src, g);
    ProgramEvents(src, g, b);
    LiveArcsAreAll(prog);
    if ReachingDefs.DeclaredIn(prog, b, x) {
      w := [b];
    } else {
      w :| IsWalk(prog.Arcs(), w) && |w| > 1 && Last(w) == b && ReachingDefs.DeclaredIn(prog, w[0], x)
           && forall j :: 0 <= j < |w| - 1 ==> !WritesVar(prog.EventsAt(w[j]), x);
      forall r | 0 <= r < |w| - 1
        ensures !WritesVar(EventsIn(src, At(NetOf(g), w[r])), x)
      {
        ProgramEvents(src, g, w[r]);
      }
    }
  }

  /** A walk from a block of one path to a block of another, completed to a path. */
  lemma Completed(g: Cfg, p: seq<int>, l: nat, p': seq<int>, m: nat, w: seq<int>) returns (full: seq<int>)
    requires WalkFromTo(g.Arcs(), p, ENTRY, EXIT) && l < |p| && WalkFromTo(g.Arcs(), p', ENTRY, EXIT) && m < |p'|
    requires IsWalk(g.Arcs(), w) && w[0] == p[l] && Last(w) == p'[m]
    ensures WalkFromTo(g.Arcs(), full, ENTRY, EXIT)
    ensures l + |w| <= |full| && forall r :: 0 <= r < |w| ==> full[l + r] == w[r]
  {
    WalkFront(g.Arcs(), p, l + 1);
    WalkBack(g.Arcs(), p', m);
    JoinWalks(g.Arcs(), p[..l + 1], w);
    var front := p[..l + 1] + w[1..];
    JoinWalks(g.Arcs(), front, p'[m..]);
    full := front + p'[m..][1..];
    assert p[..l + 1][0] == p[0] && Last(p'[m..]) == Last(p');
    forall r | 0 <= r < |w|
      ensures full[l + r] == w[r]
    {
      if r > 0 {
        assert front[l + r] == w[1..][r - 1];
      }
    }
  }

  /** The block of the path in which a statement between two others sits. */
  lemma PlaceBetween(n: Net, p: seq<int>, l: nat, q: nat, m: nat, o: nat, r: nat) returns (s: nat, e: nat)
    requires l <= m < |p| && q < |At(n, p[l])| && o < |At(n, p[m])|
    requires Position(n, p, l, q) <= r < Position(n, p, m, o)
    ensures l <= s <= m && e < |At(n, p[s])| && r < |Trace(n, p)| && Trace(n, p)[r] == At(n, p[s])[e]
    ensures s == m ==> e < o
  {
    hide Trace;
    PositionIs(n, p, m, o);
    assert p[..|p|] == p;
    s, e := FindPosition(n, p, r, |p|);
    PositionIs(n, p, s, e);
    if s < l {
      PositionOrder(n, p, s, l);
    }
    if m < s {
      PositionOrder(n, p, m, s);
    }
  }

  /** Of a declaration outside a `for` loop and a read in its body, with a write
      of the variable in the header: no path without a write leads from one to
      the other. */
  lemma HiddenByHeader(src: Source, g: Cfg, u: seq<Moment>, i: nat, j: nat, h: NodeId, x: string, b: int, o: nat, index: nat)
    requires Faithful(src.body) && Ascending(NodesOf(src.body)) && PrunedTo(RawGraph(src.body), g)
    requires Performance(src.body, u) && i < j < |u| && u[i].Visit?
    requires DeclaredOnlyAt(src, u[i].id, x) && DeclaredBeforeUse(src, u[i].id, x)
    requires Holds(src.body, h, u[j].id) && u[j].id != h && WritesVar(src.EventsOf(h), x)
    requires b in g.blocks && o < |g.blocks[b]| && g.blocks[b][o] == u[j].id
    requires |EventsIn(src, g.blocks[b][..o])| <= index < |ProgramOf(src, g).EventsAt(b)|
    requires ProgramOf(src, g).EventsAt(b)[index].name == x
    ensures !ReachingDefs.UninitRead(ProgramOf(src, g), b, index)
  {
    hide ProgramOf, EventsIn, WritesVar, ReachingDefs.UninitRead, ReachingDefs.DeclaredIn, WellFormed, Performance, Holds,
         PrunedTo, RawGraph, Met, NodesOf, RegularAll, CleanAll, DeclaredBeforeUse, DeclaredOnlyAt, Ascending, Trace;
    if ReachingDefs.UninitRead(ProgramOf(src, g), b, index) {
      var d := u[i].id;
      PrunedIsSorted(src.body, g);
      var w := BringingPath(src, g, b, index, x);
      var q := DeclarationPlace(src, g, w[0], d, x);
      var full, l := JoinedPath(src, g, u, i, j, w[0], q, b, o, w);
      var e := l + |w| - 1;
      assert full[l] == w[0] && full[e] == b;
      OutsideLoop(src, h, d, u[j].id, x);
      ComesAfter(g, full, l, q, e, o);
      var r := HeaderOnPath(src, g, full, l, q, e, o, h);
      var s, f := PlaceBetween(NetOf(g), full, l, q, e, o, r);
      assert full[s] == w[s - l];
      var ids := At(NetOf(g), full[s]);
      assert ids[..|ids|] == ids;
      WrittenOnTheWay(src, g, full[s], f, if s == e then o else |ids|, h, x);
      if s == e {
        EventsPrefix(src, g.blocks[b], o);
        WritesPrefix(EventsIn(src, g.blocks[b][..o]), EventsIn(src, g.blocks[b])[..index], x);
      }
      assert false;
    }
  }

  lemma WritesPrefix(a: seq<Event>, b: seq<Event>, x: string)
    requires a <= b && WritesVar(a, x)
    ensures WritesVar(b, x)
  {
    WritesConcat(a, b[|a|..], x);
    assert b == a + b[|a|..];
  }

  lemma WrittenOnTheWay(src: Source, g: Cfg, b: int, f: nat, upto: nat, h: NodeId, x: string)
    requires f < upto <= |At(NetOf(g), b)| && At(NetOf(g), b)[f] == h && WritesVar(src.EventsOf(h), x)
    ensures WritesVar(EventsIn(src, At(NetOf(g), b)[..upto]), x)
  {
    hide EventsIn, WritesVar, Source.EventsOf;
    var ids := At(NetOf(g), b)[..upto];
    assert ids[f] == h;
    WritesIn(src, ids, x);
  }

  /** The declaration is outside the loop whose header writes, and before its nodes. */
  lemma OutsideLoop(src: Source, h: NodeId, d: NodeId, v: NodeId, x: string)
    requires Ascending(NodesOf(src.body)) && DeclaredBeforeUse(src, d, x) && WritesVar(src.EventsOf(h), x)
    requires Holds(src.body, h, v)
    ensures !Holds(src.body, h, d) && d < v
  {
    hide Holds, NodesOf, WritesVar, Source.EventsOf, Ascending, DeclaredBeforeUse;
    WrittenAfterDeclaration(src, d, h, x);
    HeaderFirst(src.body, h, v);
    if Holds(src.body, h, d) {
      HeaderFirst(src.body, h, d);
    }
  }

  lemma ComesAfter(g: Cfg, p: seq<int>, l: nat, q: nat, m: nat, o: nat)
    requires l <= m < |p| && q < |At(NetOf(g), p[l])| && o < |At(NetOf(g), p[m])|
    requires Ascending(At(NetOf(g), p[m])) && At(NetOf(g), p[l])[q] < At(NetOf(g), p[m])[o]
    ensures Position(NetOf(g), p, l, q) < Position(NetOf(g), p, m, o)
  {
    hide Trace;
    if l < m {
      PositionOrder(NetOf(g), p, l, m);
    }
  }

  /** A path through the place of a moment that some run performs. */
  lemma PathOfMoment(src: Source, g: Cfg, u: seq<Moment>, i: nat) returns (p: seq<int>, l: nat, q: nat)
    requires Faithful(src.body) && PrunedTo(RawGraph(src.body), g)
    requires Performance(src.body, u) && i < |u|
    ensures WalkFromTo(g.Arcs(), p, ENTRY, EXIT) && l < |p| && q < |At(NetOf(g), p[l])| && At(NetOf(g), p[l])[q] == u[i].id
  {
    hide Performance, PrunedTo, RawGraph, Met, RegularAll, CleanAll, CompleteRun, Trace;
    PerformanceIsRun(src.body, u);
    PrunedGraphExact(src.body, g, Met(u));
    MetWith(src.body, u, i);
    var n := NetOf(g);
    p :| WalkFromTo(g.Arcs(), p, ENTRY, EXIT) && Trace(n, p) == Met(u);
    assert p[..|p|] == p;
    l, q := FindPosition(n, p, Count(u, i), |p|);
    PositionIs(n, p, l, q);
  }

  /** The node of a moment has one place in the graph. */
  lemma PlaceOfMoment(src: Source, g: Cfg, u: seq<Moment>, i: nat) returns (b: int, o: nat)
    requires Faithful(src.body) && PrunedTo(RawGraph(src.body), g)
    requires Performance(src.body, u) && i < |u|
    ensures b in g.blocks && o < |g.blocks[b]| && g.blocks[b][o] == u[i].id
  {
    hide Performance, PrunedTo, RawGraph, RegularAll, CleanAll;
    var p, l, q := PathOfMoment(src, g, u, i);
    b, o := p[l], q;
  }

  lemma SamePlace(body: seq<Stmt>, g: Cfg, b: int, i: nat, c: int, j: nat)
    requires Ascending(NodesOf(body)) && PrunedTo(RawGraph(body), g)
    requires i < |At(NetOf(g), b)| && j < |At(NetOf(g), c)| && At(NetOf(g), b)[i] == At(NetOf(g), c)[j]
    ensures b == c && i == j
  {
    hide PrunedTo, RawGraph, WellFormed, Ascending;
    AscendingDistinct(NodesOf(body));
    PrunedGraphWellFormed(body, g);
  }

  /** Paths through two places that runs meet, joined by any walk between them. */
  lemma JoinedPath(src: Source, g: Cfg, u: seq<Moment>, i: nat, j: nat, c: int, q: nat, b: int, o: nat, w: seq<int>)
    returns (full: seq<int>, l: nat)
    requires Faithful(src.body) && Ascending(NodesOf(src.body)) && PrunedTo(RawGraph(src.body), g)
    requires Performance(src.body, u) && i < |u| && j < |u|
    requires q < |At(NetOf(g), c)| && At(NetOf(g), c)[q] == u[i].id
    requires o < |At(NetOf(g), b)| && At(NetOf(g), b)[o] == u[j].id
    requires IsWalk(g.Arcs(), w) && w[0] == c && Last(w) == b
    ensures WalkFromTo(g.Arcs(), full, ENTRY, EXIT)
    ensures l + |w| <= |full| && forall r :: 0 <= r < |w| ==> full[l + r] == w[r]
  {
    hide Performance, PrunedTo, RawGraph, RegularAll, CleanAll, Ascending, NodesOf;
    var p, e, p', m, f;
    p, l, e := PathOfMoment(src, g, u, i);
    p', m, f := PathOfMoment(src, g, u, j);
    SamePlace(src.body, g, p[l], e, c, q);
    SamePlace(src.body, g, p'[m], f, b, o);
    full := Completed(g, p, l, p', m, w);
  }

  lemma HeaderOnPath(src: Source, g: Cfg, p: seq<int>, l: nat, q: nat, m: nat, o: nat, h: NodeId) returns (r: nat)
    requires Faithful(src.body) && Ascending(NodesOf(src.body)) && PrunedTo(RawGraph(src.body), g)
    requires WalkFromTo(g.Arcs(), p, ENTRY, EXIT) && l < |p| && m < |p|
    requires q < |At(NetOf(g), p[l])| && o < |At(NetOf(g), p[m])|
    requires Position(NetOf(g), p, l, q) < Position(NetOf(g), p, m, o)
    requires !Holds(src.body, h, At(NetOf(g), p[l])[q])
    requires Holds(src.body, h, At(NetOf(g), p[m])[o]) && At(NetOf(g), p[m])[o] != h
    ensures Position(NetOf(g), p, l, q) < r < Position(NetOf(g), p, m, o)
    ensures r < |Trace(NetOf(g), p)| && Trace(NetOf(g), p)[r] == h
  {
    hide Performance, PrunedTo, RawGraph, Met, NodesOf, RegularAll, CleanAll, CompleteRun, Ascending, Trace, Holds, Position;
    var n := NetOf(g);
    AscendingDistinct(NodesOf(src.body));
    PrunedGraphExact(src.body, g, Trace(n, p));
    RunsAreMet(src.body, Trace(n, p));
    var u :| Performance(src.body, u) && Met(u) == Trace(n, p);
    PositionIs(n, p, l, q);
    PositionIs(n, p, m, o);
    r := HeaderBetween(src.body, u, h, Position(n, p, l, q), Position(n, p, m, o));
  }

  // ------------------------------------------------------------------
  // What a report means
  // ------------------------------------------------------------------

  /** In the run of nodes `t`, with all references of a header at each visit of it,
      event `k` of node `v` reads the local before anything writes it. */
  ghost predicate ReplayReads(src: Source, t: seq<NodeId>, a: int, c: int, v: NodeId, k: int, x: string)
  {
    CompleteRun(InC, src.body, t) && ReadBeforeWrite(src, t, a, c, k, x) && t[c] == v
  }

  /** The exact meaning of a report, for a declaration and a later node that runs
      can meet: some run, with all references of a header at each visit of it,
      reads the variable before it writes it. */
  lemma ReportsAreReplayedReads(src: Source, g: Cfg, u: seq<Moment>, i: nat, j: nat, b: int, o: nat, k: nat, x: string)
    requires Faithful(src.body) && Ascending(NodesOf(src.body)) && PrunedTo(RawGraph(src.body), g)
    requires Performance(src.body, u) && i < |u| && j < |u|
    requires u[i].id in src.declares && src.declares[u[i].id] == x && u[i].id < u[j].id
    requires DeclaredOnlyAt(src, u[i].id, x) && DeclaredBeforeUse(src, u[i].id, x)
    requires b in g.blocks && o < |g.blocks[b]| && g.blocks[b][o] == u[j].id
    requires k < |src.EventsOf(u[j].id)| && src.EventsOf(u[j].id)[k].name == x
    ensures ReachingDefs.UninitRead(ProgramOf(src, g), b, |EventsIn(src, g.blocks[b][..o])| + k) <==>
      exists t, a, c :: ReplayReads(src, t, a, c, u[j].id, k, x)
  {
    hide ProgramOf, EventsIn, ReachingDefs.UninitRead, Performance, PrunedTo, RawGraph, NodesOf, RegularAll, CleanAll,
         CompleteRun, DeclaredBeforeUse, DeclaredOnlyAt, Ascending, Source.EventsOf, WritesVar;
    if ReachingDefs.UninitRead(ProgramOf(src, g), b, |EventsIn(src, g.blocks[b][..o])| + k) {
      var t, a, c := ReplayOfReport(src, g, u, i, j, b, o, k, x);
    }
    if t, a, c :| ReplayReads(src, t, a, c, u[j].id, k, x) {
      EventIsRead(src, t, a, c, k, x);
      OnlyThere(src, u[i].id, t[a], x);
      var b', o' := PathReadReported(src, g, t, a, c, k, x);
      SamePlace(src.body, g, b', o', b, o);
    }
  }

  lemma OnlyThere(src: Source, d: NodeId, n: NodeId, x: string)
    requires DeclaredOnlyAt(src, d, x) && n in src.declares && src.declares[n] == x
    ensures n == d
  {
  }

  lemma ReplayOfReport(src: Source, g: Cfg, u: seq<Moment>, i: nat, j: nat, b: int, o: nat, k: nat, x: string)
    returns (t: seq<NodeId>, a: nat, c: nat)
    requires Faithful(src.body) && Ascending(NodesOf(src.body)) && PrunedTo(RawGraph(src.body), g)
    requires Performance(src.body, u) && i < |u| && j < |u|
    requires u[i].id in src.declares && src.declares[u[i].id] == x && u[i].id < u[j].id
    requires DeclaredOnlyAt(src, u[i].id, x)
    requires b in g.blocks && o < |g.blocks[b]| && g.blocks[b][o] == u[j].id
    requires k < |src.EventsOf(u[j].id)| && src.EventsOf(u[j].id)[k].name == x
    requires ReachingDefs.UninitRead(ProgramOf(src, g), b, |EventsIn(src, g.blocks[b][..o])| + k)
    ensures ReplayReads(src, t, a, c, u[j].id, k, x)
  {
    hide ProgramOf, EventsIn, ReachingDefs.UninitRead, Performance, PrunedTo, RawGraph, NodesOf, RegularAll, CleanAll, WellFormed,
         CompleteRun, DeclaredOnlyAt, Ascending, Source.EventsOf, WritesVar, Trace, ReachingDefs.DeclaredIn;
    var n, index := NetOf(g), |EventsIn(src, g.blocks[b][..o])| + k;
    PrunedIsSorted(src.body, g);
    ListedAt(src, g, b, o, k);
    var w := BringingPath(src, g, b, index, x);
    var q := DeclarationPlace(src, g, w[0], u[i].id, x);
    var p, l := JoinedPath(src, g, u, i, j, w[0], q, b, o, w);
    var m := l + |w| - 1;
    assert p[l] == w[0] && p[m] == b;
    t, a, c := Trace(n, p), Position(n, p, l, q), Position(n, p, m, o);
    PrunedGraphExact(src.body, g, t);
    ComesAfter(g, p, l, q, m, o);
    PositionIs(n, p, l, q);
    PositionIs(n, p, m, o);
    ReportIsRead(src, g, b, o, k, x);
    UnwrittenFront(src, g.blocks[b], o, k, x);
    forall r | a <= r < c
      ensures !WritesVar(src.EventsOf(t[r]), x)
    {
      var s, e := PlaceBetween(n, p, l, q, m, o, r);
      assert p[s] == w[s - l];
      if s < m {
        WritesIn(src, At(n, p[s]), x);
      } else {
        WritesIn(src, g.blocks[b][..o], x);
        assert g.blocks[b][..o][e] == t[r];
      }
    }
  }

  lemma ReportIsRead(src: Source, g: Cfg, b: int, o: nat, k: nat, x: string)
    requires b in g.blocks && o < |g.blocks[b]| && k < |src.EventsOf(g.blocks[b][o])|
    requires ReachingDefs.UninitRead(ProgramOf(src, g), b, |EventsIn(src, g.blocks[b][..o])| + k)
    ensures src.EventsOf(g.blocks[b][o])[k].Reads()
  {
    hide ProgramOf, EventsIn, Source.EventsOf, ReachingDefs.DeclaredIn, ReachingDefs.UninitFlowsInto;
    ListedAt(src, g, b, o, k);
  }

  lemma UnwrittenFront(src: Source, ids: seq<NodeId>, o: nat, k: nat, x: string)
    requires o < |ids| && k < |src.EventsOf(ids[o])|
    requires |EventsIn(src, ids[..o])| + k <= |EventsIn(src, ids)|
    requires !WritesVar(EventsIn(src, ids)[..|EventsIn(src, ids[..o])| + k], x)
    ensures !WritesVar(EventsIn(src, ids[..o]), x) && !WritesVar(src.EventsOf(ids[o])[..k], x)
  {
    hide EventsIn, WritesVar, Source.EventsOf;
    EventOfStatement(src, ids, o, k);
    WritesConcat(EventsIn(src, ids[..o]), src.EventsOf(ids[o])[..k], x);
  }

  // ------------------------------------------------------------------
  // The theorem
  // ------------------------------------------------------------------

  /** A read of an uninitialised local in a run in C of a faithfully built body is
      reported if the step of no loop around it writes the variable, and, when the
      variable is declared once, only then. A loop that is not around the read
      must not write the variable in its step alone. */
  lemma UninitializedReadReported(src: Source, g: Cfg, u: seq<Moment>, i: nat, j: nat, k: nat, x: string)
    returns (b: int, o: nat)
    requires Faithful(src.body) && Ascending(NodesOf(src.body)) && PrunedTo(RawGraph(src.body), g)
    requires Performance(src.body, u) && ReadsUninitialized(src, u, i, j, k, x) && DeclaredBeforeUse(src, u[i].id, x)
    requires forall h :: IsFor(src.body, h) && !Holds(src.body, h, u[j].id) ==> StepGuarded(src, h, x)
    ensures b in g.blocks && o < |g.blocks[b]| && g.blocks[b][o] == u[j].id
    ensures var site := |EventsIn(src, g.blocks[b][..o])| + Offset(src, u[j]) + k;
            && (NoStepAround(src, u[j].id, x) ==> ReachingDefs.UninitRead(ProgramOf(src, g), b, site))
            && (DeclaredOnlyAt(src, u[i].id, x) && ReachingDefs.UninitRead(ProgramOf(src, g), b, site)
                ==> NoStepAround(src, u[j].id, x))
  {
    hide ProgramOf, EventsIn, WritesVar, ReachingDefs.UninitRead, Performance, Holds, StepGuarded, Source.Of, Source.EventsOf,
         PrunedTo, RawGraph, Met, NodesOf, RegularAll, CleanAll, CompleteRun, DeclaredBeforeUse, DeclaredOnlyAt, Ascending, Offset;
    var v := u[j].id;
    b, o := PlaceOfMoment(src, g, u, j);
    if NoStepAround(src, v, x) {
      forall h | IsFor(src.body, h) && h != v
        ensures StepGuarded(src, h, x)
      {
        UnwrittenIsGuarded(src, h, v, x);
      }
      var c := ReadOnPath(src, u, i, j, k, x);
      PerformanceIsRun(src.body, u);
      CountsAround(src.body, u, i, j);
      var b', o' := PathReadReported(src, g, Met(u), Count(u, i), c, Offset(src, u[j]) + k, x);
      SamePlace(src.body, g, b', o', b, o);
    } else {
      var h := StepAround(src, v, x);
      if DeclaredOnlyAt(src, u[i].id, x) {
        NotWrittenInFront(src, u, i, j, k, x);
        ListedAt(src, g, b, o, Offset(src, u[j]) + k);
        HeaderWrites(src, h, x);
        HiddenByHeader(src, g, u, i, j, h, x, b, o, |EventsIn(src, g.blocks[b][..o])| + Offset(src, u[j]) + k);
      }
    }
  }

  /** No `for` loop around node `v`, other than its own, writes `x` in its step. */
  ghost predicate NoStepAround(src: Source, v: NodeId, x: string)
  {
    forall h :: Holds(src.body, h, v) && h != v ==> !WritesVar(src.Of(ForStep(h)), x)
  }

  lemma UnwrittenIsGuarded(src: Source, h: NodeId, v: NodeId, x: string)
    requires NoStepAround(src, v, x) && h != v && (!Holds(src.body, h, v) ==> StepGuarded(src, h, x))
    ensures StepGuarded(src, h, x)
  {
    hide Holds, WritesVar, Source.Of;
  }

  lemma StepAround(src: Source, v: NodeId, x: string) returns (h: NodeId)
    requires !NoStepAround(src, v, x)
    ensures Holds(src.body, h, v) && h != v && WritesVar(src.Of(ForStep(h)), x) && IsFor(src.body, h)
  {
    hide WritesVar, Source.Of;
    h :| Holds(src.body, h, v) && h != v && WritesVar(src.Of(ForStep(h)), x);
    AllHeldAreNodes(src.body, h, v);
  }

  lemma ListedAt(src: Source, g: Cfg, b: int, o: nat, k: nat)
    requires b in g.blocks && o < |g.blocks[b]| && k < |src.EventsOf(g.blocks[b][o])|
    ensures var index := |EventsIn(src, g.blocks[b][..o])| + k;
            index < |ProgramOf(src, g).EventsAt(b)|
            && ProgramOf(src, g).EventsAt(b)[index] == src.EventsOf(g.blocks[b][o])[k]
  {
    hide ProgramOf, EventsIn, Source.EventsOf;
    EventOfStatement(src, g.blocks[b], o, k);
    ProgramEvents(src, g, b);
  }
}
