/** Function bodies with the references in their parts, as the dataflow engine
    sees them on the graph of the body, and what it reports of the events met
    along a path. The engine lists the references of a `for` header, init, test
    and step, all at the header's place. */
module Sources {
  import opened Collections
  import opened Ast
  import opened Runs
  import opened Moments
  import opened Paths
  import opened CfgSpec
  import opened CfgNodes
  import opened CfgPaths
  import opened CfgPrune
  import opened FlowModel
  import ReachingDefs
  import Liveness
  import opened PrunedAnalyses

  // ------------------------------------------------------------------
  // A function body with the references in its statements
  // ------------------------------------------------------------------

  /** The references in each part, in source order, and the statements that
      declare a local without initialiser. */
  datatype Source = Source(body: seq<Stmt>, events: map<Moment, seq<Event>>, declares: map<NodeId, string>)
  {
    function Of(m: Moment): seq<Event>
    {
      if m in events then events[m] else []
    }

    /** The references that the engine lists for a node. */
    function EventsOf(id: NodeId): seq<Event>
    {
      if IsFor(body, id) then Of(ForInit(id)) + Of(Visit(id)) + Of(ForStep(id)) else Of(Visit(id))
    }
  }

  /** Where the references of a part begin in the list for its node. */
  function Offset(src: Source, m: Moment): nat
  {
    if !IsFor(src.body, m.id) || m.ForInit? then 0
    else if m.Visit? then |src.Of(ForInit(m.id))|
    else |src.Of(ForInit(m.id))| + |src.Of(Visit(m.id))|
  }

  lemma PartOf(src: Source, m: Moment, k: nat)
    requires k < |src.Of(m)| && (m.Visit? || IsFor(src.body, m.id))
    ensures var es, at := src.EventsOf(m.id), Offset(src, m) + k;
            && at < |es| && es[at] == src.Of(m)[k]
            && es[..at] == (if !IsFor(src.body, m.id) || m.ForInit? then []
                            else if m.Visit? then src.Of(ForInit(m.id))
                            else src.Of(ForInit(m.id)) + src.Of(Visit(m.id))) + src.Of(m)[..k]
            && es[at + 1..] == src.Of(m)[k + 1..]
                               + (if !IsFor(src.body, m.id) || m.ForStep? then []
                                  else if m.Visit? then src.Of(ForStep(m.id))
                                  else src.Of(Visit(m.id)) + src.Of(ForStep(m.id)))
  {
    hide Source.Of, Holds;
    if IsFor(src.body, m.id) {
      var a, b, c := src.Of(ForInit(m.id)), src.Of(Visit(m.id)), src.Of(ForStep(m.id));
      if m.ForInit? {
        RestAfter([], a, b + c, k);
        assert a + b + c == [] + a + (b + c);
      } else if m.Visit? {
        RestAfter(a, b, c, k);
      } else {
        RestAfter(a + b, c, [], k);
        assert a + b + c == a + b + c + [];
      }
    }
  }

  function EventsIn(src: Source, ids: seq<NodeId>): seq<Event>
  {
    if ids == [] then [] else EventsIn(src, ids[..|ids| - 1]) + src.EventsOf(ids[|ids| - 1])
  }

  /** The declarations among some statements of block `b`. */
  function DeclsIn(src: Source, b: int, ids: seq<NodeId>): seq<Decl>
  {
    if ids == [] then []
    else DeclsIn(src, b, ids[1..]) + if ids[0] in src.declares then [Decl(src.declares[ids[0]], Some(b))] else []
  }

  function AllDecls(src: Source, g: Cfg, order: seq<int>): seq<Decl>
  {
    if order == [] then []
    else AllDecls(src, g, order[1..]) + if order[0] in g.blocks then DeclsIn(src, order[0], g.blocks[order[0]]) else []
  }

  /** The program the dataflow engine sees on a graph of the body. */
  function ProgramOf(src: Source, g: Cfg): Program
  {
    Program(g, map b | b in g.blocks :: EventsIn(src, g.blocks[b]), AllDecls(src, g, g.order))
  }

  lemma {:induction false} DeclsInExact(src: Source, b: int, ids: seq<NodeId>, d: Decl)
    ensures d in DeclsIn(src, b, ids) <==>
              exists i :: 0 <= i < |ids| && ids[i] in src.declares && d == Decl(src.declares[ids[i]], Some(b))
  {
    if ids != [] {
      DeclsInExact(src, b, ids[1..], d);
      if i :| 0 <= i < |ids| && ids[i] in src.declares && d == Decl(src.declares[ids[i]], Some(b)) && i > 0 {
        assert ids[1..][i - 1] == ids[i];
      }
      if i :| 0 <= i < |ids[1..]| && ids[1..][i] in src.declares && d == Decl(src.declares[ids[1..][i]], Some(b)) {
        assert ids[i + 1] == ids[1..][i];
      }
    }
  }

  lemma {:induction false} AllDeclsExact(src: Source, g: Cfg, order: seq<int>, d: Decl)
    ensures d in AllDecls(src, g, order) <==> exists b :: b in order && b in g.blocks && d in DeclsIn(src, b, g.blocks[b])
  {
    if order != [] {
      AllDeclsExact(src, g, order[1..], d);
      assert order == [order[0]] + order[1..];
    }
  }

  lemma DeclaredInBlock(src: Source, g: Cfg, b: int, i: nat)
    requires WellFormed(g) && b in g.blocks && i < |g.blocks[b]| && g.blocks[b][i] in src.declares
    ensures ReachingDefs.DeclaredIn(ProgramOf(src, g), b, src.declares[g.blocks[b][i]])
  {
    var d := Decl(src.declares[g.blocks[b][i]], Some(b));
    DeclsInExact(src, b, g.blocks[b], d);
    AllDeclsExact(src, g, g.order, d);
  }

  lemma {:induction false} WritesIn(src: Source, ids: seq<NodeId>, x: string)
    ensures WritesVar(EventsIn(src, ids), x) <==> exists i :: 0 <= i < |ids| && WritesVar(src.EventsOf(ids[i]), x)
  {
    if ids != [] {
      var n := |ids| - 1;
      WritesIn(src, ids[..n], x);
      WritesConcat(EventsIn(src, ids[..n]), src.EventsOf(ids[n]), x);
      assert forall i :: 0 <= i < n ==> ids[..n][i] == ids[i];
    }
  }

  lemma WritesConcat(a: seq<Event>, b: seq<Event>, x: string)
    ensures WritesVar(a + b, x) <==> WritesVar(a, x) || WritesVar(b, x)
  {
    if i :| 0 <= i < |a| && a[i].isWrite && a[i].name == x {
      assert (a + b)[i] == a[i];
    }
    if i :| 0 <= i < |b| && b[i].isWrite && b[i].name == x {
      assert (a + b)[i + |a|] == b[i];
    }
  }

  /** Event `k` of the statement at offset `o`, as an event of the block. */
  lemma EventOfStatement(src: Source, ids: seq<NodeId>, o: nat, k: nat)
    requires o < |ids| && k < |src.EventsOf(ids[o])|
    ensures var index := |EventsIn(src, ids[..o])| + k;
            && index < |EventsIn(src, ids)|
            && EventsIn(src, ids)[index] == src.EventsOf(ids[o])[k]
            && EventsIn(src, ids)[..index] == EventsIn(src, ids[..o]) + src.EventsOf(ids[o])[..k]
  {
    hide EventsIn;
    EventsPrefix(src, ids, o + 1);
    EventsNext(src, ids, o);
    InPrefix(EventsIn(src, ids[..o]), src.EventsOf(ids[o]), EventsIn(src, ids), k);
  }

  lemma EventsNext(src: Source, ids: seq<NodeId>, o: nat)
    requires o < |ids|
    ensures EventsIn(src, ids[..o + 1]) == EventsIn(src, ids[..o]) + src.EventsOf(ids[o])
  {
    assert ids[..o + 1][..o] == ids[..o];
  }

  lemma InPrefix(before: seq<Event>, here: seq<Event>, all: seq<Event>, k: nat)
    requires before + here <= all && k < |here|
    ensures |before| + k < |all| && all[|before| + k] == here[k] && all[..|before| + k] == before + here[..k]
  {
    assert (before + here)[|before| + k] == here[k];
  }

  lemma {:induction false} EventsPrefix(src: Source, ids: seq<NodeId>, n: nat)
    requires n <= |ids|
    ensures EventsIn(src, ids[..n]) <= EventsIn(src, ids)
    decreases |ids|
  {
    if n < |ids| {
      EventsPrefix(src, ids[..|ids| - 1], n);
      assert ids[..|ids| - 1][..n] == ids[..n];
    } else {
      assert ids[..n] == ids;
    }
  }

  // ------------------------------------------------------------------
  // Positions along a path
  // ------------------------------------------------------------------

  lemma TraceSplit(n: Net, p: seq<int>, m: nat)
    requires m < |p|
    ensures Trace(n, p[..m + 1]) == Trace(n, p[..m]) + At(n, p[m])
  {
    assert p[..m + 1] == p[..m] + [p[m]];
    TraceAppend(n, p[..m], [p[m]]);
    assert [p[m]][1..] == [];
  }

  lemma TraceFront(n: Net, p: seq<int>, m: nat)
    requires m <= |p|
    ensures Trace(n, p[..m]) <= Trace(n, p)
  {
    assert p == p[..m] + p[m..];
    TraceAppend(n, p[..m], p[m..]);
  }

  /** Offset `o` of the `m`-th block of a path is this position of its trace. */
  function Position(n: Net, p: seq<int>, m: nat, o: nat): nat
    requires m <= |p|
  {
    |Trace(n, p[..m])| + o
  }

  lemma PositionIs(n: Net, p: seq<int>, m: nat, o: nat)
    requires m < |p| && o < |At(n, p[m])|
    ensures Position(n, p, m, o) < |Trace(n, p)| && Trace(n, p)[Position(n, p, m, o)] == At(n, p[m])[o]
  {
    TraceSplit(n, p, m);
    TraceFront(n, p, m + 1);
  }

  lemma {:induction false} PositionOrder(n: Net, p: seq<int>, l: nat, m: nat)
    requires l < m <= |p|
    ensures |Trace(n, p[..l])| + |At(n, p[l])| <= |Trace(n, p[..m])|
    decreases m
  {
    TraceSplit(n, p, m - 1);
    if l < m - 1 {
      PositionOrder(n, p, l, m - 1);
    }
  }

  /** Every position of a trace belongs to some block of the path. */
  lemma {:induction false} FindPosition(n: Net, p: seq<int>, j: nat, m: nat) returns (l: nat, o: nat)
    requires m <= |p| && j < |Trace(n, p[..m])|
    ensures l < m && o < |At(n, p[l])| && Position(n, p, l, o) == j
    decreases m
  {
    assert p[..0] == [];
    TraceSplit(n, p, m - 1);
    if j < |Trace(n, p[..m - 1])| {
      l, o := FindPosition(n, p, j, m - 1);
    } else {
      l, o := m - 1, j - |Trace(n, p[..m - 1])|;
    }
  }

  // ------------------------------------------------------------------
  // No uninitialised read goes unreported
  // ------------------------------------------------------------------

  /** In the run `t`, the local declared at position `i` is read by event `k` of
      the statement at position `j`, and nothing writes it in between. */
  ghost predicate ReadBeforeWrite(src: Source, t: seq<NodeId>, i: int, j: int, k: int, x: string)
  {
    && 0 <= i < j < |t|
    && t[i] in src.declares && src.declares[t[i]] == x
    && 0 <= k < |src.EventsOf(t[j])|
    && src.EventsOf(t[j])[k].name == x && src.EventsOf(t[j])[k].Reads()
    && !WritesVar(src.EventsOf(t[j])[..k], x)
    && forall m :: i <= m < j ==> !WritesVar(src.EventsOf(t[m]), x)
  }

  /** The declaration comes before every write in the source. */
  ghost predicate DeclaredBeforeUse(src: Source, id: NodeId, x: string)
  {
    forall m :: m in src.events && WritesVar(src.events[m], x) ==> id < m.id
  }

  /** What the engine lists for a node is written by one of its parts. */
  lemma WrittenAfterDeclaration(src: Source, id: NodeId, n: NodeId, x: string)
    requires DeclaredBeforeUse(src, id, x) && WritesVar(src.EventsOf(n), x)
    ensures id < n
  {
    if IsFor(src.body, n) {
      WritesConcat(src.Of(ForInit(n)) + src.Of(Visit(n)), src.Of(ForStep(n)), x);
      WritesConcat(src.Of(ForInit(n)), src.Of(Visit(n)), x);
    }
  }

  /** Between the declaration and the read, no block of the path writes `x`. */
  lemma NoWriteInBlock(src: Source, g: Cfg, p: seq<int>, t: seq<NodeId>, l: nat, q: nat, m: nat, o: nat, k: nat,
                       x: string, r: nat, upto: nat)
    requires t == Trace(NetOf(g), p) && l <= r <= m < |p|
    requires q < |At(NetOf(g), p[l])| && o < |At(NetOf(g), p[m])|
    requires ReadBeforeWrite(src, t, Position(NetOf(g), p, l, q), Position(NetOf(g), p, m, o), k, x)
    requires DeclaredBeforeUse(src, At(NetOf(g), p[l])[q], x)
    requires Ascending(At(NetOf(g), p[l]))
    requires upto == if r == m then o else |At(NetOf(g), p[r])|
    ensures !WritesVar(EventsIn(src, At(NetOf(g), p[r])[..upto]), x)
  {
    hide Source.EventsOf, WritesVar;
    var n := NetOf(g);
    var ids := At(n, p[r]);
    WritesIn(src, ids[..upto], x);
    forall s | 0 <= s < upto
      ensures !WritesVar(src.EventsOf(ids[..upto][s]), x)
    {
      PositionIs(n, p, r, s);
      if r < m {
        PositionOrder(n, p, r, m);
      }
      if l < r {
        PositionOrder(n, p, l, r);
      }
      if r == l && s < q && WritesVar(src.EventsOf(ids[s]), x) {
        WrittenAfterDeclaration(src, ids[q], ids[s], x);
      }
    }
  }

  /** Every read of an uninitialised local in a run of a faithfully built body, in the
      order in which the references stand, is among the reported sites. */
  lemma PathReadReported(src: Source, g: Cfg, t: seq<NodeId>, i: nat, j: nat, k: nat, x: string)
    returns (b: int, o: nat)
    requires Faithful(src.body) && Ascending(NodesOf(src.body))
    requires PrunedTo(RawGraph(src.body), g)
    requires CompleteRun(InC, src.body, t)
    requires ReadBeforeWrite(src, t, i, j, k, x) && DeclaredBeforeUse(src, t[i], x)
    ensures b in g.blocks && o < |g.blocks[b]| && g.blocks[b][o] == t[j]
    ensures ReachingDefs.UninitRead(ProgramOf(src, g), b, |EventsIn(src, g.blocks[b][..o])| + k)
  {
    hide RawGraph, CompleteRun, RegularAll, CleanAll, WellFormed, PrunedTo, Trace, ReadBeforeWrite, ProgramOf,
         ReachingDefs.UninitRead, Ascending, NodesOf, DeclaredBeforeUse, EventsIn, Source.EventsOf;
    PrunedGraphExact(src.body, g, t);
    var n := NetOf(g);
    var p :| WalkFromTo(g.Arcs(), p, ENTRY, EXIT) && Trace(n, p) == t;
    assert p[..|p|] == p;
    EventIsRead(src, t, i, j, k, x);
    var l, q := FindPosition(n, p, i, |p|);
    var m;
    m, o := FindPosition(n, p, j, |p|);
    PositionIs(n, p, l, q);
    PositionIs(n, p, m, o);
    if m < l {
      PositionOrder(n, p, m, l);
    }
    b := p[m];
    PrunedIsSorted(src.body, g);
    ReportedOnPath(src, g, p, t, l, q, m, o, k, x, b, g.blocks[b]);
  }

  lemma PrunedIsSorted(body: seq<Stmt>, g: Cfg)
    requires PrunedTo(RawGraph(body), g) && Ascending(NodesOf(body))
    ensures WellFormed(g) && forall b :: Ascending(At(NetOf(g), b))
  {
    hide RawGraph, WellFormed;
    var gs :| PruneSteps(gs) && gs[0] == RawGraph(body) && Paths.Last(gs) == g;
    RawGraphWellFormed(body);
    PrunedWellFormed(gs);
    PrunedBlocks(gs);
    forall b
      ensures Ascending(At(NetOf(g), b))
    {
      if b in g.blocks {
        RawGraphOrdered(body, b);
      }
    }
  }

  lemma ReportedOnPath(src: Source, g: Cfg, p: seq<int>, t: seq<NodeId>, l: nat, q: nat, m: nat, o: nat, k: nat, x: string,
                       b: int, ids: seq<NodeId>)
    requires WellFormed(g) && IsWalk(g.Arcs(), p)
    requires t == Trace(NetOf(g), p) && l <= m < |p|
    requires q < |At(NetOf(g), p[l])| && o < |At(NetOf(g), p[m])|
    requires ReadBeforeWrite(src, t, Position(NetOf(g), p, l, q), Position(NetOf(g), p, m, o), k, x)
    requires DeclaredBeforeUse(src, At(NetOf(g), p[l])[q], x)
    requires Ascending(At(NetOf(g), p[l])) && Ascending(ids)
    requires b == p[m] && b in g.blocks && ids == g.blocks[b]
    ensures ReachingDefs.UninitRead(ProgramOf(src, g), b, |EventsIn(src, ids[..o])| + k)
  {
    var n := NetOf(g);
    hide ProgramOf, EventsIn, Trace, ReadBeforeWrite, WritesVar, WellFormed, ReachingDefs.UninitFlowsInto,
         ReachingDefs.DeclaredIn, DeclaredBeforeUse, Position, Ascending, IsWalk;
    PositionIs(n, p, m, o);
    PositionIs(n, p, l, q);
    EventIsRead(src, t, Position(n, p, l, q), Position(n, p, m, o), k, x);
    NoWriteInBlock(src, g, p, t, l, q, m, o, k, x, m, o);
    DeclaredInBlock(src, g, p[l], q);
    if l < m {
      UninitReaches(src, g, p, t, l, q, m, o, k, x);
    }
    IsReported(src, g, b, o, k, x);
  }

  lemma UninitReaches(src: Source, g: Cfg, p: seq<int>, t: seq<NodeId>, l: nat, q: nat, m: nat, o: nat, k: nat, x: string)
    requires WellFormed(g) && IsWalk(g.Arcs(), p)
    requires t == Trace(NetOf(g), p) && l < m < |p|
    requires q < |At(NetOf(g), p[l])| && o < |At(NetOf(g), p[m])|
    requires ReadBeforeWrite(src, t, Position(NetOf(g), p, l, q), Position(NetOf(g), p, m, o), k, x)
    requires DeclaredBeforeUse(src, At(NetOf(g), p[l])[q], x)
    requires Ascending(At(NetOf(g), p[l]))
    requires ReachingDefs.DeclaredIn(ProgramOf(src, g), p[l], x)
    ensures ReachingDefs.UninitFlowsInto(ProgramOf(src, g), x, p[m])
  {
    hide ProgramOf, EventsIn, Trace, ReadBeforeWrite, WritesVar, WellFormed, ReachingDefs.UninitFlowsInto,
         ReachingDefs.DeclaredIn, ReachingDefs.UninitRead, DeclaredBeforeUse, Position, Ascending;
    var n := NetOf(g);
    UninitWalk(src, g, p, l, m);
    forall r | l <= r < m
      ensures !WritesVar(EventsIn(src, At(n, p[r])), x)
    {
      NoWriteInBlock(src, g, p, t, l, q, m, o, k, x, r, |At(n, p[r])|);
      assert At(n, p[r])[..|At(n, p[r])|] == At(n, p[r]);
    }
    UninitPath(src, g, p, l, m, x);
  }

  lemma IsReported(src: Source, g: Cfg, b: int, o: nat, k: nat, x: string)
    requires b in g.blocks && o < |g.blocks[b]| && k < |src.EventsOf(g.blocks[b][o])|
    requires var e := src.EventsOf(g.blocks[b][o])[k]; e.name == x && e.Reads()
    requires !WritesVar(src.EventsOf(g.blocks[b][o])[..k], x)
    requires !WritesVar(EventsIn(src, g.blocks[b][..o]), x)
    requires ReachingDefs.DeclaredIn(ProgramOf(src, g), b, x) || ReachingDefs.UninitFlowsInto(ProgramOf(src, g), x, b)
    ensures ReachingDefs.UninitRead(ProgramOf(src, g), b, |EventsIn(src, g.blocks[b][..o])| + k)
  {
    hide ProgramOf, EventsIn, WritesVar, ReachingDefs.UninitFlowsInto, ReachingDefs.DeclaredIn;
    var ids := g.blocks[b];
    EventOfStatement(src, ids, o, k);
    WritesConcat(EventsIn(src, ids[..o]), src.EventsOf(ids[o])[..k], x);
    ProgramEvents(src, g, b);
  }

  lemma ProgramEvents(src: Source, g: Cfg, b: int)
    ensures ProgramOf(src, g).cfg == g
    ensures ProgramOf(src, g).EventsAt(b) == EventsIn(src, At(NetOf(g), b))
  {
  }

  lemma EventIsRead(src: Source, t: seq<NodeId>, i: int, j: int, k: int, x: string)
    requires ReadBeforeWrite(src, t, i, j, k, x)
    ensures 0 <= i < j < |t| && t[i] in src.declares && src.declares[t[i]] == x
    ensures 0 <= k < |src.EventsOf(t[j])|
    ensures src.EventsOf(t[j])[k].name == x && src.EventsOf(t[j])[k].Reads()
    ensures !WritesVar(src.EventsOf(t[j])[..k], x)
  {
  }

  lemma UninitPath(src: Source, g: Cfg, p: seq<int>, l: nat, m: nat, x: string)
    requires l < m < |p|
    requires var w := p[l..m + 1];
             IsWalk(ProgramOf(src, g).Arcs(), w) && Last(w) == p[m] && w[0] == p[l]
    requires ReachingDefs.DeclaredIn(ProgramOf(src, g), p[l], x)
    requires forall r :: l <= r < m ==> !WritesVar(EventsIn(src, At(NetOf(g), p[r])), x)
    ensures ReachingDefs.UninitFlowsInto(ProgramOf(src, g), x, p[m])
  {
    hide ProgramOf, EventsIn, WritesVar;
    var prog := ProgramOf(src, g);
    var w := p[l..m + 1];
    forall j | 0 <= j < |w| - 1
      ensures !WritesVar(prog.EventsAt(w[j]), x)
    {
      ProgramEvents(src, g, w[j]);
      assert w[j] == p[l + j];
    }
  }

  lemma UninitWalk(src: Source, g: Cfg, p: seq<int>, l: nat, m: nat)
    requires WellFormed(g) && IsWalk(g.Arcs(), p) && l < m < |p|
    ensures var w := p[l..m + 1];
            IsWalk(ProgramOf(src, g).Arcs(), w) && Last(w) == p[m] && w[0] == p[l]
  {
    LiveArcsAreAll(ProgramOf(src, g));
    WalkBack(g.Arcs(), p, l);
    WalkFront(g.Arcs(), p[l..], m + 1 - l);
    assert p[l..][..m + 1 - l] == p[l..m + 1];
  }

  // ------------------------------------------------------------------
  // No reported store is read
  // ------------------------------------------------------------------

  /** The events of the run `t` after event `k` of its statement `i`. */
  function Onward(src: Source, t: seq<NodeId>, i: nat, k: nat): seq<Event>
    requires i < |t| && k < |src.EventsOf(t[i])|
  {
    src.EventsOf(t[i])[k + 1..] + EventsIn(src, t[i + 1..])
  }

  lemma {:induction false} EventsAppend(src: Source, a: seq<NodeId>, b: seq<NodeId>)
    ensures EventsIn(src, a + b) == EventsIn(src, a) + EventsIn(src, b)
    decreases |b|
  {
    if b == [] {
      assert a + b == a;
    } else {
      var n := |b| - 1;
      EventsAppend(src, a, b[..n]);
      assert (a + b)[..|a + b| - 1] == a + b[..n];
    }
  }

  lemma {:induction false} StreamIsEvents(src: Source, g: Cfg, w: seq<int>)
    ensures Liveness.Stream(ProgramOf(src, g), w) == EventsIn(src, Trace(NetOf(g), w))
  {
    hide ProgramOf;
    if w != [] {
      StreamIsEvents(src, g, w[1..]);
      ProgramEvents(src, g, w[0]);
      EventsAppend(src, At(NetOf(g), w[0]), Trace(NetOf(g), w[1..]));
    }
  }

  /** What follows event `k` of the statement at offset `o` in its block. */
  lemma RestOfBlock(src: Source, ids: seq<NodeId>, o: nat, k: nat)
    requires o < |ids| && k < |src.EventsOf(ids[o])|
    ensures var index := |EventsIn(src, ids[..o])| + k;
            && index < |EventsIn(src, ids)|
            && EventsIn(src, ids)[index] == src.EventsOf(ids[o])[k]
            && EventsIn(src, ids)[index + 1..] == Onward(src, ids, o, k)
  {
    hide EventsIn;
    EventsAround(src, ids, o);
    RestAfter(EventsIn(src, ids[..o]), src.EventsOf(ids[o]), EventsIn(src, ids[o + 1..]), k);
  }

  lemma EventsAround(src: Source, ids: seq<NodeId>, o: nat)
    requires o < |ids|
    ensures EventsIn(src, ids) == EventsIn(src, ids[..o]) + src.EventsOf(ids[o]) + EventsIn(src, ids[o + 1..])
  {
    assert ids[..o + 1][..o] == ids[..o];
    assert ids == ids[..o + 1] + ids[o + 1..];
    EventsAppend(src, ids[..o + 1], ids[o + 1..]);
  }

  lemma RestAfter<T>(a: seq<T>, b: seq<T>, c: seq<T>, k: nat)
    requires k < |b|
    ensures (a + b + c)[|a| + k] == b[k] && (a + b + c)[|a| + k + 1..] == b[k + 1..] + c
  {
  }

  /** What the run has before it at offset `o` of the `l`-th block of its path:
      the rest of the block, and then the blocks after it. */
  lemma OnwardOnPath(src: Source, g: Cfg, p: seq<int>, l: nat, o: nat, k: nat)
    requires l < |p| && o < |At(NetOf(g), p[l])| && k < |src.EventsOf(At(NetOf(g), p[l])[o])|
    ensures var t, i := Trace(NetOf(g), p), Position(NetOf(g), p, l, o);
            && i < |t| && t[i] == At(NetOf(g), p[l])[o]
            && Onward(src, t, i, k)
               == Onward(src, At(NetOf(g), p[l]), o, k) + Liveness.Stream(ProgramOf(src, g), p[l + 1..])
  {
    hide ProgramOf, EventsIn, Trace, Liveness.Stream, Source.EventsOf;
    var n := NetOf(g);
    PositionIs(n, p, l, o);
    TraceSplit(n, p, l);
    TraceAppend(n, p[..l + 1], p[l + 1..]);
    assert p == p[..l + 1] + p[l + 1..];
    RestAfter(Trace(n, p[..l]), At(n, p[l]), Trace(n, p[l + 1..]), o);
    EventsAppend(src, At(n, p[l])[o + 1..], Trace(n, p[l + 1..]));
    StreamIsEvents(src, g, p[l + 1..]);
  }

  /** A store that some run of a faithfully built body reads is read on a path
      from the place where its statement sits. */
  lemma PathStoreIsReadLater(src: Source, g: Cfg, t: seq<NodeId>, i: nat, k: nat, x: string) returns (b: int, o: nat)
    requires Faithful(src.body) && PrunedTo(RawGraph(src.body), g) && CompleteRun(InC, src.body, t)
    requires i < |t| && k < |src.EventsOf(t[i])| && Liveness.NextReads(Onward(src, t, i, k), x)
    ensures b in g.blocks && o < |g.blocks[b]| && g.blocks[b][o] == t[i]
    ensures var index := |EventsIn(src, g.blocks[b][..o])| + k;
            index < |ProgramOf(src, g).EventsAt(b)| && Liveness.ReadLater(ProgramOf(src, g), b, index, x)
  {
    hide RawGraph, CompleteRun, RegularAll, CleanAll, PrunedTo, Trace, ProgramOf, Liveness.NextReads, WellFormed,
         Liveness.ReadLater, Onward, EventsIn, Source.EventsOf, Position;
    PrunedGraphExact(src.body, g, t);
    var n := NetOf(g);
    var p :| WalkFromTo(g.Arcs(), p, ENTRY, EXIT) && Trace(n, p) == t;
    assert p[..|p|] == p;
    var l;
    l, o := FindPosition(n, p, i, |p|);
    PositionIs(n, p, l, o);
    b := p[l];
    PrunedGraphWellFormed(src.body, g);
    OnwardOnPath(src, g, p, l, o, k);
    ReadOnWalk(src, g, p, l, o, k, x);
  }

  lemma PrunedGraphWellFormed(body: seq<Stmt>, g: Cfg)
    requires PrunedTo(RawGraph(body), g)
    ensures WellFormed(g)
    ensures NoRepeats(NodesOf(body)) ==> StatementsOnce(g)
  {
    hide RawGraph, WellFormed;
    var gs :| PruneSteps(gs) && gs[0] == RawGraph(body) && Paths.Last(gs) == g;
    RawGraphWellFormed(body);
    PrunedWellFormed(gs);
    PrunedBlocks(gs);
    if NoRepeats(NodesOf(body)) {
      RawGraphStatementsOnce(body);
    }
  }

  lemma ReadOnWalk(src: Source, g: Cfg, p: seq<int>, l: nat, o: nat, k: nat, x: string)
    requires WellFormed(g) && IsWalk(g.Arcs(), p) && l < |p| && p[l] in g.blocks
    requires o < |g.blocks[p[l]]| && k < |src.EventsOf(g.blocks[p[l]][o])|
    requires Liveness.NextReads(Onward(src, g.blocks[p[l]], o, k) + Liveness.Stream(ProgramOf(src, g), p[l + 1..]), x)
    ensures var index := |EventsIn(src, g.blocks[p[l]][..o])| + k;
            index < |ProgramOf(src, g).EventsAt(p[l])| && Liveness.ReadLater(ProgramOf(src, g), p[l], index, x)
  {
    hide ProgramOf, EventsIn, Liveness.NextReads, WellFormed, Onward;
    ProgramEvents(src, g, p[l]);
    RestOfBlock(src, g.blocks[p[l]], o, k);
    LiveArcsAreAll(ProgramOf(src, g));
    WalkBack(g.Arcs(), p, l);
    var w := p[l..];
    assert w[0] == p[l] && w[1..] == p[l + 1..];
  }
}
