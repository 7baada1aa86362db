/** May-dataflow over a finite graph. Each block transforms a set of facts; a
    fact holds at the end of a block if some walk that ends there, started with
    no facts, produces it. For transfers that work fact by fact, this is the
    least solution of the dataflow equations. */
module FlowTheory {
  import opened Paths

  type Transfer<!F(==)> = (int, set<F>) -> set<F>

  /** The facts at the end of a walk that starts with none. */
  function Fold<F>(t: Transfer<F>, p: seq<int>): set<F>
  {
    if p == [] then {} else t(p[|p| - 1], Fold(t, p[..|p| - 1]))
  }

  ghost predicate PathFact<F>(t: Transfer<F>, arcs: set<(int, int)>, b: int, f: F)
  {
    exists p :: IsWalk(arcs, p) && Last(p) == b && f in Fold(t, p)
  }

  /** A fact that some predecessor of `b` passes on. */
  ghost predicate EnteringFact<F>(t: Transfer<F>, arcs: set<(int, int)>, b: int, f: F)
  {
    exists u :: (u, b) in arcs && PathFact(t, arcs, u, f)
  }

  ghost predicate Monotone<F(!new)>(t: Transfer<F>)
  {
    forall b, s, u :: s <= u ==> t(b, s) <= t(b, u)
  }

  /** Every fact that comes out is generated or comes from one fact that went in. */
  ghost predicate FactByFact<F(!new)>(t: Transfer<F>)
  {
    forall b, s, f :: f in t(b, s) ==> f in t(b, {}) || exists x :: x in s && f in t(b, {x})
  }

  /** The facts that flow into `b`. */
  ghost function Incoming<F(!new)>(x: map<int, set<F>>, arcs: set<(int, int)>, b: int): set<F>
  {
    set a: (int, int), g: F | a in arcs && a.1 == b && a.0 in x && g in x[a.0] :: g
  }

  lemma IncomingFact<F(!new)>(x: map<int, set<F>>, arcs: set<(int, int)>, b: int, f: F)
    ensures f in Incoming(x, arcs, b) <==> exists p :: (p, b) in arcs && p in x && f in x[p]
  {
    if f in Incoming(x, arcs, b) {
      var a :| a in arcs && a.1 == b && a.0 in x && f in x[a.0];
      var p := a.0;
      assert a == (p, b);
      assert (p, b) in arcs && p in x && f in x[p];
    }
  }

  ghost predicate Solution<F(!new)>(t: Transfer<F>, arcs: set<(int, int)>, x: map<int, set<F>>)
  {
    forall b :: b in x ==> x[b] == t(b, Incoming(x, arcs, b))
  }

  /** Closed under the equations: at least a solution. */
  ghost predicate PostSolution<F(!new)>(t: Transfer<F>, arcs: set<(int, int)>, x: map<int, set<F>>)
  {
    forall b :: b in x ==> t(b, Incoming(x, arcs, b)) <= x[b]
  }

  ghost predicate ArcsWithin(arcs: set<(int, int)>, blocks: set<int>)
  {
    forall a :: a in arcs ==> a.0 in blocks && a.1 in blocks
  }

  /** Justified by walks. */
  ghost predicate Justified<F(!new)>(t: Transfer<F>, arcs: set<(int, int)>, x: map<int, set<F>>)
  {
    forall b, f :: b in x && f in x[b] ==> PathFact(t, arcs, b, f)
  }

  lemma {:induction false} PathFactInPostSolution<F(!new)>(t: Transfer<F>, arcs: set<(int, int)>, x: map<int, set<F>>,
                                                           p: seq<int>)
    requires Monotone(t) && PostSolution(t, arcs, x) && ArcsWithin(arcs, x.Keys)
    requires IsWalk(arcs, p) && Last(p) in x
    ensures Fold(t, p) <= x[Last(p)]
    decreases |p|
  {
    var b := Last(p);
    var front := p[..|p| - 1];
    if front == [] {
      assert t(b, {}) <= t(b, Incoming(x, arcs, b));
    } else {
      WalkFront(arcs, p, |front|);
      assert (p[|p| - 2], p[|p| - 1]) in arcs;
      assert (p[|p| - 2], p[|p| - 1]).0 in x.Keys;
      PathFactInPostSolution(t, arcs, x, front);
      forall f | f in Fold(t, front)
        ensures f in Incoming(x, arcs, b)
      {
        assert (Last(front), b) in arcs;
        IncomingFact(x, arcs, b, f);
      }
    }
  }

  /** What flows into a block from walk facts, and out of it, is a walk fact. */
  lemma TransferJustified<F(!new)>(t: Transfer<F>, arcs: set<(int, int)>, x: map<int, set<F>>, b: int, f: F)
    requires Monotone(t) && FactByFact(t) && Justified(t, arcs, x)
    requires f in t(b, Incoming(x, arcs, b))
    ensures PathFact(t, arcs, b, f)
  {
    if f in t(b, {}) {
      assert Fold(t, [b]) == t(b, {}) by {
        assert [b][..0] == [];
      }
      assert IsWalk(arcs, [b]) && Last([b]) == b;
    } else {
      var g :| g in Incoming(x, arcs, b) && f in t(b, {g});
      IncomingFact(x, arcs, b, g);
      var p :| (p, b) in arcs && p in x && g in x[p];
      var w :| IsWalk(arcs, w) && Last(w) == p && g in Fold(t, w);
      WalkExtend(arcs, w, b);
      assert (w + [b])[..|w|] == w;
      assert {g} <= Fold(t, w);
      assert f in Fold(t, w + [b]);
    }
  }

  /** A justified post-solution is exactly the set of walk facts ... */
  lemma JustifiedPostSolutionIsExact<F(!new)>(t: Transfer<F>, arcs: set<(int, int)>, x: map<int, set<F>>)
    requires Monotone(t) && PostSolution(t, arcs, x) && Justified(t, arcs, x) && ArcsWithin(arcs, x.Keys)
    ensures forall b, f :: b in x ==> (f in x[b] <==> PathFact(t, arcs, b, f))
  {
    forall b, f | b in x && PathFact(t, arcs, b, f)
      ensures f in x[b]
    {
      var p :| IsWalk(arcs, p) && Last(p) == b && f in Fold(t, p);
      PathFactInPostSolution(t, arcs, x, p);
    }
  }

  /** ... and the walk facts are contained in every solution: they are the least one. */
  lemma WalkFactsAreLeast<F(!new)>(t: Transfer<F>, arcs: set<(int, int)>, x: map<int, set<F>>, y: map<int, set<F>>)
    requires Monotone(t) && PostSolution(t, arcs, y) && ArcsWithin(arcs, y.Keys)
    requires x.Keys == y.Keys && Justified(t, arcs, x)
    ensures forall b :: b in x ==> x[b] <= y[b]
  {
    forall b, f | b in x && f in x[b]
      ensures f in y[b]
    {
      var p :| IsWalk(arcs, p) && Last(p) == b && f in Fold(t, p);
      PathFactInPostSolution(t, arcs, y, p);
    }
  }

  // ------------------------------------------------------------------
  // Round-robin iteration
  // ------------------------------------------------------------------

  /** The state of an iteration that grows from the empty assignment. */
  ghost predicate Rising<F(!new)>(t: Transfer<F>, arcs: set<(int, int)>, x: map<int, set<F>>, universe: set<F>)
  {
    && Justified(t, arcs, x)
    && (forall b :: b in x ==> x[b] <= t(b, Incoming(x, arcs, b)))
    && (forall b :: b in x ==> x[b] <= universe)
  }

  /** The transfers never leave the universe of facts. */
  ghost predicate Bounded<F(!new)>(t: Transfer<F>, universe: set<F>)
  {
    forall b, s :: s <= universe ==> t(b, s) <= universe
  }

  /** What is still missing, which shrinks with every change. */
  ghost function Missing<F(!new)>(x: map<int, set<F>>, universe: set<F>): set<(int, F)>
  {
    set b, f | b in x && f in universe && f !in x[b] :: (b, f)
  }

  lemma IncomingGrows<F(!new)>(x: map<int, set<F>>, y: map<int, set<F>>, arcs: set<(int, int)>, b: int)
    requires x.Keys == y.Keys && forall c :: c in x ==> x[c] <= y[c]
    ensures Incoming(x, arcs, b) <= Incoming(y, arcs, b)
  {
    forall f | f in Incoming(x, arcs, b)
      ensures f in Incoming(y, arcs, b)
    {
      IncomingFact(x, arcs, b, f);
      IncomingFact(y, arcs, b, f);
    }
  }

  /** One visit of a round-robin pass: it only adds, and keeps what the
      iteration relies on. */
  lemma Visit<F(!new)>(t: Transfer<F>, arcs: set<(int, int)>, x: map<int, set<F>>, universe: set<F>, b: int)
    requires Monotone(t) && FactByFact(t) && Bounded(t, universe)
    requires Rising(t, arcs, x, universe) && b in x
    ensures var now := t(b, Incoming(x, arcs, b));
            && x[b] <= now
            && Rising(t, arcs, x[b := now], universe)
            && (now != x[b] ==> Missing(x[b := now], universe) < Missing(x, universe))
  {
    var now := t(b, Incoming(x, arcs, b));
    var y := x[b := now];
    assert y.Keys == x.Keys;
    forall c, f | c in y && f in y[c]
      ensures PathFact(t, arcs, c, f)
    {
      if c == b {
        TransferJustified(t, arcs, x, b, f);
      }
    }
    forall c | c in y
      ensures y[c] <= t(c, Incoming(y, arcs, c))
    {
      IncomingGrows(x, y, arcs, c);
    }
    forall f | f in Incoming(x, arcs, b)
      ensures f in universe
    {
      IncomingFact(x, arcs, b, f);
    }
    if now != x[b] {
      var f :| f in now && f !in x[b];
      assert (b, f) in Missing(x, universe) && (b, f) !in Missing(y, universe);
    }
  }

  lemma RisingFromEmpty<F(!new)>(t: Transfer<F>, arcs: set<(int, int)>, x: map<int, set<F>>, universe: set<F>)
    requires forall b :: b in x ==> x[b] == {}
    ensures Rising(t, arcs, x, universe)
  {
  }
}
