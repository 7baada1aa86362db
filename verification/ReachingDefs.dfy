/** Reaching definitions, and the reads of uninitialised variables found with
    them. */
module ReachingDefs {
  import opened Collections
  import opened Paths
  import opened FlowTheory
  import opened FlowModel
  import opened EventPaths

  /** Where a variable got its value: nowhere yet, or from the event at an index. */
  datatype DefSite = Uninit | WrittenAt(index: nat)

  datatype Definition = Definition(variable: string, site: DefSite, block: int)

  predicate DeclaredIn(p: Program, b: int, x: string)
  {
    Decl(x, Some(b)) in p.decls
  }

  /** The declarations of block `b`, before any of its events. */
  function DeclDefs(p: Program, b: int): set<Definition>
  {
    if b in p.cfg.blocks then set d | d in p.decls && d.block == Some(b) :: Definition(d.name, Uninit, b) else {}
  }

  /** What is left of `gen` after the first events of a block: each write takes
      the place of earlier definitions of its variable. */
  function GenAfter(events: seq<Event>, b: int, gen: set<Definition>): set<Definition>
  {
    if events == [] then gen
    else
      var n := |events| - 1;
      var before := GenAfter(events[..n], b, gen);
      if events[n].isWrite then
        (set d | d in before && d.variable != events[n].name) + {Definition(events[n].name, WrittenAt(n), b)}
      else before
  }

  function Gen(p: Program, b: int): set<Definition>
  {
    GenAfter(p.EventsAt(b), b, DeclDefs(p, b))
  }

  function Kill(p: Program, b: int): set<string>
  {
    set i | 0 <= i < |p.EventsAt(b)| && p.EventsAt(b)[i].isWrite :: p.EventsAt(b)[i].name
  }

  function Transfers(p: Program): Transfer<Definition>
  {
    (b: int, s: set<Definition>) => Gen(p, b) + set d: Definition | d in s && d.variable !in Kill(p, b)
  }

  // ------------------------------------------------------------------
  // What a block generates
  // ------------------------------------------------------------------

  /** The write at `i` is the last one of its variable. */
  predicate LastWrite(events: seq<Event>, x: string, i: nat)
  {
    && i < |events| && events[i].isWrite && events[i].name == x
    && forall j :: i < j < |events| ==> !(events[j].isWrite && events[j].name == x)
  }

  lemma KillIsWrites(p: Program, b: int, x: string)
    ensures x in Kill(p, b) <==> WritesVar(p.EventsAt(b), x)
  {
    if x in Kill(p, b) {
      var i :| 0 <= i < |p.EventsAt(b)| && p.EventsAt(b)[i].isWrite && p.EventsAt(b)[i].name == x;
    }
  }

  lemma WritesAppend(a: seq<Event>, e: Event, x: string)
    ensures WritesVar(a + [e], x) <==> WritesVar(a, x) || (e.isWrite && e.name == x)
  {
    if WritesVar(a, x) {
      var i :| 0 <= i < |a| && a[i].isWrite && a[i].name == x;
      assert (a + [e])[i] == a[i];
    }
    assert (a + [e])[|a|] == e;
  }

  lemma LastWriteAppend(a: seq<Event>, e: Event, x: string, i: nat)
    ensures LastWrite(a + [e], x, i) <==>
              if e.isWrite && e.name == x then i == |a| else LastWrite(a, x, i)
  {
    assert (a + [e])[|a|] == e;
    assert forall j :: 0 <= j < |a| ==> (a + [e])[j] == a[j];
  }

  lemma {:induction false} GenAfterExact(events: seq<Event>, b: int, gen: set<Definition>, d: Definition)
    requires forall g :: g in gen ==> g.block == b && g.site == Uninit
    ensures d in GenAfter(events, b, gen) <==>
              || (d in gen && !WritesVar(events, d.variable))
              || (d.block == b && d.site.WrittenAt? && LastWrite(events, d.variable, d.site.index))
  {
    if events != [] {
      var n := |events| - 1;
      var front, e := events[..n], events[n];
      assert events == front + [e];
      GenAfterExact(front, b, gen, d);
      WritesAppend(front, e, d.variable);
      if d.site.WrittenAt? {
        LastWriteAppend(front, e, d.variable, d.site.index);
      }
    }
  }

  /** A block generates, of each variable, its last write, or, if it never
      writes it, the missing value of its declaration. */
  lemma GenExact(p: Program, b: int, d: Definition)
    ensures d in Gen(p, b) <==>
              && d.block == b && b in p.cfg.blocks
              && match d.site
                 case Uninit => DeclaredIn(p, b, d.variable) && !WritesVar(p.EventsAt(b), d.variable)
                 case WrittenAt(i) => LastWrite(p.EventsAt(b), d.variable, i)
  {
    GenAfterExact(p.EventsAt(b), b, DeclDefs(p, b), d);
    if d.site == Uninit && d.block == b && DeclaredIn(p, b, d.variable) {
      var decl := Decl(d.variable, Some(b));
      assert decl in p.decls && decl.block == Some(b);
    }
  }

  /** Each block generates at most one definition of a variable. */
  lemma GenAtMostOne(p: Program, b: int, d: Definition, e: Definition)
    requires d in Gen(p, b) && e in Gen(p, b) && d.variable == e.variable
    ensures d == e
  {
    GenExact(p, b, d);
    GenExact(p, b, e);
  }

  // ------------------------------------------------------------------
  // The transfers
  // ------------------------------------------------------------------

  function Universe(p: Program): set<Definition>
  {
    set b, d | b in p.cfg.blocks && d in Gen(p, b) :: d
  }

  lemma TransfersAreSound(p: Program)
    ensures Monotone(Transfers(p)) && FactByFact(Transfers(p)) && Bounded(Transfers(p), Universe(p))
  {
    var t := Transfers(p);
    forall b, s, f | f in t(b, s)
      ensures f in t(b, {}) || exists x :: x in s && f in t(b, {x})
    {
      if f !in Gen(p, b) {
        assert f in s && f in t(b, {f});
      }
    }
    forall b, s | s <= Universe(p)
      ensures t(b, s) <= Universe(p)
    {
      forall d | d in Gen(p, b)
        ensures d in Universe(p)
      {
        GenExact(p, b, d);
      }
    }
  }

  /** Along a walk, a definition survives from the block that generates it to
      the end when no later block writes its variable. */
  ghost predicate SurvivesFrom(p: Program, w: seq<int>, i: int, d: Definition)
  {
    0 <= i < |w| && d in Gen(p, w[i]) && forall j :: i < j < |w| ==> !WritesVar(p.EventsAt(w[j]), d.variable)
  }

  lemma SurvivesStep(p: Program, front: seq<int>, b: int, d: Definition)
    ensures (exists i :: SurvivesFrom(p, front + [b], i, d)) <==>
              d in Gen(p, b) || ((exists i :: SurvivesFrom(p, front, i, d)) && !WritesVar(p.EventsAt(b), d.variable))
  {
    hide Gen, WritesVar;
    var w, n := front + [b], |front|;
    assert w[n] == b && forall j :: 0 <= j < n ==> w[j] == front[j];
    if d in Gen(p, b) {
      assert SurvivesFrom(p, w, n, d);
    }
    if i :| SurvivesFrom(p, w, i, d) && i < n {
      assert !WritesVar(p.EventsAt(w[n]), d.variable);
      assert SurvivesFrom(p, front, i, d);
    }
    if i :| SurvivesFrom(p, front, i, d) && !WritesVar(p.EventsAt(b), d.variable) {
      assert SurvivesFrom(p, w, i, d);
    }
  }

  lemma {:induction false} FoldSurvives(p: Program, w: seq<int>, d: Definition)
    ensures d in Fold(Transfers(p), w) <==> exists i :: SurvivesFrom(p, w, i, d)
  {
    hide Gen, WritesVar, SurvivesFrom;
    if w == [] {
      NothingSurvives(p, d);
    } else {
      var n := |w| - 1;
      var front, b := w[..n], w[n];
      assert w == front + [b];
      FoldSurvives(p, front, d);
      KillIsWrites(p, b, d.variable);
      SurvivesStep(p, front, b, d);
    }
  }

  lemma NothingSurvives(p: Program, d: Definition)
    ensures !exists i :: SurvivesFrom(p, [], i, d)
  {
  }

  /** A path from the generating block with no later block writing the variable. */
  ghost predicate DefReaches(p: Program, d: Definition, b: int)
  {
    exists w :: WalkFromTo(p.Arcs(), w, d.block, b) && SurvivesFrom(p, w, 0, d)
  }

  /** The definition is in the IN set of `b`. */
  ghost predicate DefEnters(p: Program, d: Definition, b: int)
  {
    exists c :: (c, b) in p.Arcs() && DefReaches(p, d, c)
  }

  lemma EnteringIsReach(p: Program, b: int, d: Definition)
    ensures EnteringFact(Transfers(p), p.Arcs(), b, d) <==> DefEnters(p, d, b)
  {
    hide PathFact, DefReaches, Transfers;
    forall c
      ensures PathFact(Transfers(p), p.Arcs(), c, d) <==> DefReaches(p, d, c)
    {
      PathFactIsReach(p, c, d);
    }
  }

  lemma PathFactIsReach(p: Program, b: int, d: Definition)
    ensures PathFact(Transfers(p), p.Arcs(), b, d) <==> DefReaches(p, d, b)
  {
    if PathFact(Transfers(p), p.Arcs(), b, d) {
      var w :| IsWalk(p.Arcs(), w) && Last(w) == b && d in Fold(Transfers(p), w);
      FoldSurvives(p, w, d);
      var i :| SurvivesFrom(p, w, i, d);
      WalkBack(p.Arcs(), w, i);
      GenExact(p, w[i], d);
      assert forall j :: 0 <= j < |w| - i ==> w[i..][j] == w[i + j];
      assert SurvivesFrom(p, w[i..], 0, d);
    }
    if DefReaches(p, d, b) {
      var w :| WalkFromTo(p.Arcs(), w, d.block, b) && SurvivesFrom(p, w, 0, d);
      FoldSurvives(p, w, d);
    }
  }

  // ------------------------------------------------------------------
  // Told of the events themselves
  // ------------------------------------------------------------------

  /** The block holds the definition: its write is the last of the variable
      there, or its bare declaration stays without a write there. */
  ghost predicate Born(p: Program, d: Definition)
  {
    match d.site
    case Uninit => DeclaresBare(p, d.block, d.variable) && forall i :: !WritesAt(p, d.block, i, d.variable)
    case WrittenAt(i) => WritesAt(p, d.block, i, d.variable) && forall j :: j > i ==> !WritesAt(p, d.block, j, d.variable)
  }

  ghost predicate Unwritten(p: Program, w: seq<int>, x: string)
  {
    forall k, i :: 0 <= k < |w| ==> !WritesAt(p, w[k], i, x)
  }

  /** A path leads from the definition to the end of `b`, and no block on it
      after the first writes the variable. */
  ghost predicate Arrives(p: Program, d: Definition, b: int)
  {
    Born(p, d) && exists w :: Route(p.cfg, w) && w[0] == d.block && w[|w| - 1] == b && Unwritten(p, w[1..], d.variable)
  }

  lemma BareIsDeclared(p: Program, b: int, x: string)
    ensures DeclaresBare(p, b, x) <==> DeclaredIn(p, b, x)
  {
    if DeclaresBare(p, b, x) {
      var k :| 0 <= k < |p.decls| && p.decls[k].name == x && p.decls[k].block.Some? && p.decls[k].block.value == b;
      assert p.decls[k] == Decl(x, Some(b));
    }
  }

  lemma BornIsGenerated(p: Program, d: Definition)
    requires d.block in p.cfg.blocks
    ensures Born(p, d) <==> d in Gen(p, d.block)
  {
    hide Gen;
    GenExact(p, d.block, d);
    BareIsDeclared(p, d.block, d.variable);
    WrittenSomewhere(p, d.block, d.variable);
    var events := p.EventsAt(d.block);
    forall i
      ensures WritesAt(p, d.block, i, d.variable) <==> 0 <= i < |events| && events[i].isWrite && events[i].name == d.variable
    {
    }
    hide WritesAt, WritesVar;
  }

  lemma UnwrittenBlocks(p: Program, w: seq<int>, x: string)
    requires forall k :: 0 <= k < |w| ==> w[k] in p.cfg.blocks
    ensures Unwritten(p, w, x) <==> forall k :: 0 <= k < |w| ==> !WritesVar(p.EventsAt(w[k]), x)
  {
    hide WritesAt, WritesVar;
    forall k | 0 <= k < |w|
      ensures WritesVar(p.EventsAt(w[k]), x) <==> exists i :: WritesAt(p, w[k], i, x)
    {
      WrittenSomewhere(p, w[k], x);
    }
  }

  lemma ReachIsArrival(p: Program, d: Definition, b: int)
    requires b in p.cfg.blocks
    ensures DefReaches(p, d, b) <==> Arrives(p, d, b)
  {
    hide Born, Unwritten, Gen, WritesVar;
    forall w | |w| > 0 && w[0] == d.block && w[|w| - 1] == b
      ensures Route(p.cfg, w) <==> WalkFromTo(p.Arcs(), w, d.block, b)
      ensures Route(p.cfg, w) ==> (SurvivesFrom(p, w, 0, d) <==> Born(p, d) && Unwritten(p, w[1..], d.variable))
    {
      RouteIsWalk(p, w);
      if Route(p.cfg, w) {
        BornIsGenerated(p, d);
        var v := w[1..];
        assert forall k :: 0 <= k < |v| ==> v[k] == w[k + 1] && v[k] in p.cfg.blocks;
        UnwrittenBlocks(p, v, d.variable);
        assert SurvivesFrom(p, w, 0, d) ==> forall k :: 0 <= k < |v| ==> !WritesVar(p.EventsAt(v[k]), d.variable);
        assert forall j :: 0 < j < |w| ==> w[j] == v[j - 1];
      }
    }
  }

  /** A path from a block that declares `x` bare leads to a read of `x` at index
      `i` of block `b`, and nothing on it before the read writes `x`. */
  ghost predicate BareAtRead(p: Program, b: int, i: int, x: string)
  {
    && ReadsAt(p, b, i, x)
    && (forall j :: j < i ==> !WritesAt(p, b, j, x))
    && exists w :: Route(p.cfg, w) && w[|w| - 1] == b && DeclaresBare(p, w[0], x) && Unwritten(p, w[..|w| - 1], x)
  }

  lemma BareFlows(p: Program, b: int, x: string)
    requires b in p.cfg.blocks
    ensures (exists w :: Route(p.cfg, w) && w[|w| - 1] == b && DeclaresBare(p, w[0], x) && Unwritten(p, w[..|w| - 1], x))
            <==> DeclaredIn(p, b, x) || UninitFlowsInto(p, x, b)
  {
    hide Unwritten, WritesVar, DeclaresBare, DeclaredIn;
    BareIsDeclared(p, b, x);
    forall w | |w| > 0 && w[|w| - 1] == b
      ensures Route(p.cfg, w) <==> IsWalk(p.Arcs(), w)
      ensures Route(p.cfg, w) ==>
        (DeclaresBare(p, w[0], x) && Unwritten(p, w[..|w| - 1], x)
         <==> DeclaredIn(p, w[0], x) && forall j :: 0 <= j < |w| - 1 ==> !WritesVar(p.EventsAt(w[j]), x))
    {
      RouteIsWalk(p, w);
      BareIsDeclared(p, w[0], x);
      if Route(p.cfg, w) {
        UnwrittenBlocks(p, w[..|w| - 1], x);
      }
    }
    if DeclaredIn(p, b, x) {
      assert Route(p.cfg, [b]) && [b][|[b]| - 1] == b;
    }
  }

  lemma ReadIsBare(p: Program, b: int, i: int)
    requires b in p.cfg.blocks && b in p.events && 0 <= i < |p.events[b]|
    ensures UninitRead(p, b, i) <==> BareAtRead(p, b, i, p.events[b][i].name)
  {
    hide UninitFlowsInto, Unwritten, DeclaresBare, DeclaredIn, Route;
    var x, events := p.events[b][i].name, p.events[b];
    BareFlows(p, b, x);
    assert (exists j :: j < i && WritesAt(p, b, j, x)) <==> WritesVar(events[..i], x) by {
      if j :| j < i && WritesAt(p, b, j, x) {
        assert events[..i][j].isWrite;
      }
      if j :| 0 <= j < |events[..i]| && events[..i][j].isWrite && events[..i][j].name == x {
        assert WritesAt(p, b, j, x);
      }
    }
  }

  // ------------------------------------------------------------------
  // The fixpoint loop
  // ------------------------------------------------------------------

  /** The definitions generated by one block, event by event. */
  method BlockGen(p: Program, b: int) returns (gen: set<Definition>, kill: set<string>)
    requires b in p.cfg.blocks
    ensures gen == Gen(p, b) && kill == Kill(p, b)
  {
    gen := set d | d in p.decls && d.block == Some(b) :: Definition(d.name, Uninit, b);
    kill := {};
    var events := p.EventsAt(b);
    var i := 0;
    while i < |events|
      invariant i <= |events|
      invariant gen == GenAfter(events[..i], b, DeclDefs(p, b))
      invariant kill == set j | 0 <= j < i && events[j].isWrite :: events[j].name
    {
      assert events[..i + 1][..i] == events[..i];
      if events[i].isWrite {
        kill := kill + {events[i].name};
        gen := (set d | d in gen && d.variable != events[i].name) + {Definition(events[i].name, WrittenAt(i), b)};
      }
      i := i + 1;
    }
    assert events[..i] == events;
  }

  /** OUT of one block from its IN. */
  method FlowThrough(p: Program, b: int, incoming: set<Definition>) returns (now: set<Definition>)
    requires b in p.cfg.blocks
    ensures now == Transfers(p)(b, incoming)
  {
    var gen, kill := BlockGen(p, b);
    var survivors := set d | d in incoming && d.variable !in kill;
    now := gen + survivors;
  }

  method ReachingDefinitions(p: Program) returns (out: map<int, set<Definition>>)
    requires p.Ordered()
    ensures out.Keys == p.cfg.blocks.Keys
    ensures forall b, d :: b in out ==> (d in out[b] <==> Arrives(p, d, b))
    ensures forall b, d :: b in out ==> (d in out[b] <==> DefReaches(p, d, b))
    ensures Solution(Transfers(p), p.Arcs(), out)
  {
    hide Transfers, Universe, Monotone, FactByFact, Bounded, Rising, Missing, Incoming, DefReaches, Solution, Arrives;
    ghost var t, arcs, universe := Transfers(p), p.Arcs(), Universe(p);
    TransfersAreSound(p);
    out := map b | b in p.cfg.blocks :: {};
    RisingFromEmpty(t, arcs, out, universe);
    var changed := true;
    while changed
      invariant out.Keys == p.cfg.blocks.Keys && Rising(t, arcs, out, universe)
      invariant !changed ==> forall b :: b in p.cfg.order ==> out[b] == t(b, Incoming(out, arcs, b))
      decreases Missing(out, universe), changed
    {
      changed := false;
      ghost var before := out;
      var i := 0;
      while i < |p.cfg.order|
        invariant i <= |p.cfg.order|
        invariant out.Keys == p.cfg.blocks.Keys && Rising(t, arcs, out, universe)
        invariant Missing(out, universe) <= Missing(before, universe)
        invariant changed ==> Missing(out, universe) < Missing(before, universe)
        invariant !changed ==> out == before
        invariant !changed ==> forall j :: 0 <= j < i ==>
                    (p.cfg.order[j] in out
                     && out[p.cfg.order[j]] == t(p.cfg.order[j], Incoming(out, arcs, p.cfg.order[j])))
      {
        var b := p.cfg.order[i];
        assert b in p.cfg.blocks;
        var incoming := InSet(p, out, b);
        var now := FlowThrough(p, b, incoming);
        Visit(t, arcs, out, universe, b);
        if now != out[b] {
          out := out[b := now];
          changed := true;
        }
        i := i + 1;
      }
    }
    Converged(p, out);
    forall b, d | b in out
      ensures d in out[b] <==> Arrives(p, d, b)
    {
      ReachIsArrival(p, d, b);
    }
  }

  lemma Converged(p: Program, out: map<int, set<Definition>>)
    requires p.Ordered() && out.Keys == p.cfg.blocks.Keys
    requires Rising(Transfers(p), p.Arcs(), out, Universe(p))
    requires forall b :: b in p.cfg.order ==> out[b] == Transfers(p)(b, Incoming(out, p.Arcs(), b))
    ensures Solution(Transfers(p), p.Arcs(), out)
    ensures forall b, d :: b in out ==> (d in out[b] <==> DefReaches(p, d, b))
  {
    TransfersAreSound(p);
    var t := Transfers(p);
    assert PostSolution(t, p.Arcs(), out);
    JustifiedPostSolutionIsExact(t, p.Arcs(), out);
    forall b, d | b in out
      ensures d in out[b] <==> DefReaches(p, d, b)
    {
      PathFactIsReach(p, b, d);
    }
  }

  /** It is the least solution of OUT = GEN + (IN - KILL). */
  lemma ReachingDefinitionsLeast(p: Program, out: map<int, set<Definition>>, other: map<int, set<Definition>>)
    requires out.Keys == other.Keys == p.cfg.blocks.Keys
    requires forall b, d :: b in out ==> (d in out[b] <==> DefReaches(p, d, b))
    requires PostSolution(Transfers(p), p.Arcs(), other)
    ensures forall b :: b in out ==> out[b] <= other[b]
  {
    TransfersAreSound(p);
    forall b, d | b in out && d in out[b]
      ensures PathFact(Transfers(p), p.Arcs(), b, d)
    {
      PathFactIsReach(p, b, d);
    }
    WalkFactsAreLeast(Transfers(p), p.Arcs(), out, other);
  }

  // ------------------------------------------------------------------
  // Reads of uninitialised variables
  // ------------------------------------------------------------------

  /** A non-empty path leads to `b` from a block that declares `x`, with no
      write of `x` in any block on it before `b`. */
  ghost predicate UninitFlowsInto(p: Program, x: string, b: int)
  {
    exists w :: IsWalk(p.Arcs(), w) && |w| > 1 && Last(w) == b && DeclaredIn(p, w[0], x)
                && forall j :: 0 <= j < |w| - 1 ==> !WritesVar(p.EventsAt(w[j]), x)
  }

  /** The read at index `i` of block `b` may find its variable uninitialised. */
  ghost predicate UninitRead(p: Program, b: int, i: int)
  {
    && b in p.cfg.blocks && 0 <= i < |p.EventsAt(b)|
    && p.EventsAt(b)[i].Reads()
    && !WritesVar(p.EventsAt(b)[..i], p.EventsAt(b)[i].name)
    && (DeclaredIn(p, b, p.EventsAt(b)[i].name) || UninitFlowsInto(p, p.EventsAt(b)[i].name, b))
  }

  lemma UninitFlows(p: Program, out: map<int, set<Definition>>, x: string, b: int)
    requires out.Keys == p.cfg.blocks.Keys
    requires forall c, d :: c in out ==> (d in out[c] <==> DefReaches(p, d, c))
    ensures (exists d :: d in Incoming(out, p.Arcs(), b) && d.variable == x && d.site == Uninit)
            <==> UninitFlowsInto(p, x, b)
  {
    hide DefReaches, UninitFlowsInto, Incoming;
    if d :| d in Incoming(out, p.Arcs(), b) && d.variable == x && d.site == Uninit {
      IncomingFact(out, p.Arcs(), b, d);
      var c :| (c, b) in p.Arcs() && c in out && d in out[c];
      ReachedUninitFlows(p, d, c, b);
    }
    if UninitFlowsInto(p, x, b) {
      var d, c := FlowingUninitReaches(p, x, b);
      IncomingFact(out, p.Arcs(), b, d);
    }
  }

  lemma ReachedUninitFlows(p: Program, d: Definition, c: int, b: int)
    requires DefReaches(p, d, c) && (c, b) in p.Arcs() && d.site == Uninit
    ensures UninitFlowsInto(p, d.variable, b)
  {
    var w :| WalkFromTo(p.Arcs(), w, d.block, c) && SurvivesFrom(p, w, 0, d);
    WalkExtend(p.Arcs(), w, b);
    GenExact(p, w[0], d);
    var v := w + [b];
    assert v[0] == w[0] && forall j :: 0 <= j < |v| - 1 ==> v[j] == w[j];
  }

  lemma FlowingUninitReaches(p: Program, x: string, b: int) returns (d: Definition, c: int)
    requires UninitFlowsInto(p, x, b)
    ensures d.variable == x && d.site == Uninit && DefReaches(p, d, c) && (c, b) in p.Arcs() && c in p.cfg.blocks
  {
    var w :| IsWalk(p.Arcs(), w) && |w| > 1 && Last(w) == b && DeclaredIn(p, w[0], x)
             && forall j :: 0 <= j < |w| - 1 ==> !WritesVar(p.EventsAt(w[j]), x);
    var n := |w| - 1;
    d, c := Definition(x, Uninit, w[0]), w[n - 1];
    WalkFront(p.Arcs(), w, n);
    assert (w[n - 1], w[n]) in p.Arcs() && (w[0], w[1]) in p.Arcs();
    assert (c, b).0 in p.cfg.blocks && (w[0], w[1]).0 in p.cfg.blocks;
    GenExact(p, w[0], d);
    assert SurvivesFrom(p, w[..n], 0, d);
  }

  method UninitializedReads(p: Program) returns (findings: seq<Site>)
    requires p.Ordered()
    ensures forall b, i: nat :: Site(b, i) in findings <==>
      b in p.cfg.blocks && b in p.events && i < |p.events[b]| && BareAtRead(p, b, i, p.events[b][i].name)
    ensures forall b, i: nat :: Site(b, i) in findings <==> UninitRead(p, b, i)
    ensures NoRepeats(findings)
  {
    hide UninitFlowsInto, DefReaches, Solution, Arrives, BareAtRead;
    var out := ReachingDefinitions(p);
    findings := [];
    var k := 0;
    while k < |p.cfg.order|
      invariant k <= |p.cfg.order|
      invariant forall b, i: nat :: Site(b, i) in findings <==> b in p.cfg.order[..k] && UninitRead(p, b, i)
      invariant NoRepeats(findings)
    {
      var b := p.cfg.order[k];
      assert b in p.cfg.blocks;
      var incoming := InSet(p, out, b);
      var uninit := (set d | d in incoming && d.site == Uninit :: d.variable)
                    + (set d | d in p.decls && d.block == Some(b) :: d.name);
      UninitOnEntry(p, out, b, incoming, uninit);
      var found := ScanReads(p, b, uninit);
      forall s | s in findings
        ensures s !in found
      {
        assert Site(s.block, s.index) in findings;
        assert b !in p.cfg.order[..k];
      }
      NoRepeatsAppend(findings, found);
      findings := findings + found;
      assert p.cfg.order[..k + 1] == p.cfg.order[..k] + [b];
      k := k + 1;
    }
    assert p.cfg.order[..k] == p.cfg.order;
    forall b, i: nat | b in p.cfg.blocks && b in p.events && i < |p.events[b]|
      ensures UninitRead(p, b, i) <==> BareAtRead(p, b, i, p.events[b][i].name)
    {
      ReadIsBare(p, b, i);
    }
  }

  lemma UninitOnEntry(p: Program, out: map<int, set<Definition>>, b: int, incoming: set<Definition>, uninit: set<string>)
    requires out.Keys == p.cfg.blocks.Keys
    requires forall c, d :: c in out ==> (d in out[c] <==> DefReaches(p, d, c))
    requires incoming == Incoming(out, p.Arcs(), b)
    requires uninit == (set d | d in incoming && d.site == Uninit :: d.variable)
                       + (set d | d in p.decls && d.block == Some(b) :: d.name)
    ensures forall x :: x in uninit <==> DeclaredIn(p, b, x) || UninitFlowsInto(p, x, b)
  {
    hide UninitFlowsInto, DefReaches;
    forall x
      ensures x in uninit <==> DeclaredIn(p, b, x) || UninitFlowsInto(p, x, b)
    {
      UninitFlows(p, out, x, b);
      if DeclaredIn(p, b, x) {
        var decl := Decl(x, Some(b));
        assert decl in p.decls && decl.block == Some(b) && decl.name == x;
      }
    }
  }

  /** One pass over the events of a block; a write ends the doubt. */
  method ScanReads(p: Program, b: int, uninit: set<string>) returns (found: seq<Site>)
    ensures forall c, i: nat :: Site(c, i) in found <==>
              && c == b && i < |p.EventsAt(b)|
              && p.EventsAt(b)[i].Reads()
              && !WritesVar(p.EventsAt(b)[..i], p.EventsAt(b)[i].name)
              && p.EventsAt(b)[i].name in uninit
    ensures NoRepeats(found)
  {
    var events := p.EventsAt(b);
    var left := uninit;
    found := [];
    var i := 0;
    while i < |events|
      invariant i <= |events|
      invariant forall x :: x in left <==> x in uninit && !WritesVar(events[..i], x)
      invariant forall c, j: nat :: Site(c, j) in found <==>
                  && c == b && j < i && events[j].Reads()
                  && !WritesVar(events[..j], events[j].name) && events[j].name in uninit
      invariant NoRepeats(found)
    {
      var e := events[i];
      assert events[..i + 1] == events[..i] + [e];
      forall x
        ensures WritesVar(events[..i + 1], x) <==> WritesVar(events[..i], x) || (e.isWrite && e.name == x)
      {
        WritesAppend(events[..i], e, x);
      }
      if e.name in left {
        if e.Reads() {
          found := found + [Site(b, i)];
        }
        if e.isWrite {
          left := left - {e.name};
        }
      }
      i := i + 1;
    }
  }
}
