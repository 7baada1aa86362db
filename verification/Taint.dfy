/** Taint propagation: which sink arguments may carry a value from a source. */
module Taint {
  import opened Paths
  import opened CfgSpec
  import opened FlowTheory
  import opened FlowModel
  import opened EventPaths
  import opened TaintChains

  datatype TaintProgram = TaintProgram(cfg: Cfg, ops: map<int, seq<Op>>, sources: set<string>, sinks: set<string>)
  {
    function OpsAt(b: int): seq<Op>
    {
      if b in ops && b in cfg.blocks then ops[b] else []
    }

    /** The same graph as the other analyses see. */
    function Flow(): Program
    {
      Program(cfg, map[], [])
    }
  }

  /** A reported argument of the call at a position of a block. */
  datatype Finding = Finding(block: int, index: nat, argument: string)

  function Step(p: TaintProgram, op: Op, s: set<string>): set<string>
  {
    match op
    case Call(_, _) => s
    case Assign(lhs, callees, names) =>
      if lhs == "" then s
      else if (exists c :: c in callees && c in p.sources) || (exists x :: x in names && x in s) then s + {lhs}
      else s - {lhs}
  }

  /** The tainted variables after some operations, given those before. */
  function Scan(p: TaintProgram, ops: seq<Op>, s: set<string>): set<string>
  {
    if ops == [] then s else Step(p, ops[|ops| - 1], Scan(p, ops[..|ops| - 1], s))
  }

  function Transfers(p: TaintProgram): Transfer<string>
  {
    (b: int, s: set<string>) => Scan(p, p.OpsAt(b), s)
  }

  lemma {:induction false} ScanMonotone(p: TaintProgram, ops: seq<Op>, s: set<string>, u: set<string>)
    requires s <= u
    ensures Scan(p, ops, s) <= Scan(p, ops, u)
  {
    if ops != [] {
      ScanMonotone(p, ops[..|ops| - 1], s, u);
    }
  }

  lemma StepMonotone(p: TaintProgram, op: Op, s: set<string>, u: set<string>)
    requires s <= u
    ensures Step(p, op, s) <= Step(p, op, u)
  {
  }

  lemma StepFactByFact(p: TaintProgram, op: Op, s: set<string>, f: string)
    requires f in Step(p, op, s)
    ensures f in Step(p, op, {}) || exists x :: x in s && f in Step(p, op, {x})
  {
    if f !in Step(p, op, {}) {
      if op.Assign? && op.lhs == f && op.lhs != "" {
        var x :| x in op.names && x in s;
        assert f in Step(p, op, {x});
      } else {
        assert f in Step(p, op, {f});
      }
    }
  }

  /** A tainted variable is tainted by the operations alone or by one of the
      variables tainted before them. */
  lemma {:induction false} ScanFactByFact(p: TaintProgram, ops: seq<Op>, s: set<string>, f: string)
    requires f in Scan(p, ops, s)
    ensures f in Scan(p, ops, {}) || exists x :: x in s && f in Scan(p, ops, {x})
  {
    if ops == [] {
      assert f in Scan(p, ops, {f});
    } else {
      hide Step;
      var front, op := ops[..|ops| - 1], ops[|ops| - 1];
      StepFactByFact(p, op, Scan(p, front, s), f);
      StepMonotone(p, op, {}, Scan(p, front, {}));
      if f !in Step(p, op, {}) {
        var x :| x in Scan(p, front, s) && f in Step(p, op, {x});
        ScanFactByFact(p, front, s, x);
        if x in Scan(p, front, {}) {
          StepMonotone(p, op, {x}, Scan(p, front, {}));
        } else {
          var y :| y in s && x in Scan(p, front, {y});
          StepMonotone(p, op, {x}, Scan(p, front, {y}));
          assert f in Scan(p, ops, {y});
        }
      }
    }
  }

  /** Transfer distributes over union. */
  lemma {:induction false} ScanDistributes(p: TaintProgram, ops: seq<Op>, s: set<string>, u: set<string>)
    ensures Scan(p, ops, s + u) == Scan(p, ops, s) + Scan(p, ops, u)
  {
    ScanMonotone(p, ops, s, s + u);
    ScanMonotone(p, ops, u, s + u);
    forall f | f in Scan(p, ops, s + u)
      ensures f in Scan(p, ops, s) + Scan(p, ops, u)
    {
      ScanFactByFact(p, ops, s + u, f);
      if f in Scan(p, ops, {}) {
        ScanMonotone(p, ops, {}, s);
      } else {
        var x :| x in s + u && f in Scan(p, ops, {x});
        if x in s {
          ScanMonotone(p, ops, {x}, s);
        } else {
          ScanMonotone(p, ops, {x}, u);
        }
      }
    }
  }

  /** Taint after a list of operations is what chains of assignments carry. */
  lemma {:induction false} ScanIsCarried(p: TaintProgram, ops: seq<Op>, s: set<string>, x: string)
    ensures x in Scan(p, ops, s) <==> Carried(p.sources, s, ops, x)
  {
    if ops == [] {
      assert Untouched(ops, x, -1, 0);
    } else {
      hide Carried, Scan;
      var n := |ops| - 1;
      var front, op := ops[..n], ops[n];
      assert ops == front + [op];
      ScanLast(p, ops, s);
      forall y
        ensures y in Scan(p, front, s) <==> Carried(p.sources, s, front, y)
      {
        ScanIsCarried(p, front, s, y);
      }
      CarriedOneMore(p.sources, s, front, op, x);
      StepIsSet(p, op, Scan(p, front, s), x);
    }
  }

  lemma ScanLast(p: TaintProgram, ops: seq<Op>, s: set<string>)
    requires ops != []
    ensures Scan(p, ops, s) == Step(p, ops[|ops| - 1], Scan(p, ops[..|ops| - 1], s))
  {
  }

  lemma StepIsSet(p: TaintProgram, op: Op, s: set<string>, x: string)
    ensures x in Step(p, op, s) <==>
      if Sets(op, x) then CallsSource(op, p.sources) || exists y :: y in s && ReadsName(op, y) else x in s
  {
  }

  function Targets(ops: seq<Op>): set<string>
  {
    set i | 0 <= i < |ops| && ops[i].Assign? :: ops[i].lhs
  }

  function Universe(p: TaintProgram): set<string>
  {
    set b, x | b in p.cfg.blocks && x in Targets(p.OpsAt(b)) :: x
  }

  lemma {:induction false} ScanBounded(p: TaintProgram, ops: seq<Op>, s: set<string>)
    ensures Scan(p, ops, s) <= s + Targets(ops)
  {
    if ops != [] {
      var n := |ops| - 1;
      ScanBounded(p, ops[..n], s);
      assert Targets(ops[..n]) <= Targets(ops) by {
        forall x | x in Targets(ops[..n])
          ensures x in Targets(ops)
        {
          var i :| 0 <= i < n && ops[..n][i].Assign? && ops[..n][i].lhs == x;
          assert ops[i] == ops[..n][i];
        }
      }
    }
  }

  lemma TransfersAreSound(p: TaintProgram)
    ensures Monotone(Transfers(p)) && FactByFact(Transfers(p)) && Bounded(Transfers(p), Universe(p))
  {
    var t := Transfers(p);
    forall b, s, u | s <= u
      ensures t(b, s) <= t(b, u)
    {
      ScanMonotone(p, p.OpsAt(b), s, u);
    }
    forall b, s, f | f in t(b, s)
      ensures f in t(b, {}) || exists x :: x in s && f in t(b, {x})
    {
      ScanFactByFact(p, p.OpsAt(b), s, f);
      if x :| x in s && f in Scan(p, p.OpsAt(b), {x}) {
        assert f in t(b, {x});
      }
    }
    forall b, s | s <= Universe(p)
      ensures t(b, s) <= Universe(p)
    {
      ScanBounded(p, p.OpsAt(b), s);
      forall x | x in Targets(p.OpsAt(b))
        ensures x in Universe(p)
      {
        assert p.OpsAt(b) != [];
        assert b in p.cfg.blocks;
      }
    }
  }

  // ------------------------------------------------------------------
  // Taint along a path
  // ------------------------------------------------------------------

  /** The operations met along a list of blocks. */
  function OpsAlong(p: TaintProgram, w: seq<int>): seq<Op>
  {
    if w == [] then [] else OpsAlong(p, w[..|w| - 1]) + p.OpsAt(w[|w| - 1])
  }

  lemma {:induction false} ScanAppend(p: TaintProgram, a: seq<Op>, b: seq<Op>, s: set<string>)
    ensures Scan(p, a + b, s) == Scan(p, b, Scan(p, a, s))
    decreases |b|
  {
    if b == [] {
      assert a + b == a;
    } else {
      assert (a + b)[..|a + b| - 1] == a + b[..|b| - 1];
      ScanAppend(p, a, b[..|b| - 1], s);
    }
  }

  lemma {:induction false} FoldIsScan(p: TaintProgram, w: seq<int>)
    ensures Fold(Transfers(p), w) == Scan(p, OpsAlong(p, w), {})
  {
    if w != [] {
      FoldIsScan(p, w[..|w| - 1]);
      ScanAppend(p, OpsAlong(p, w[..|w| - 1]), p.OpsAt(w[|w| - 1]), {});
    }
  }

  lemma {:induction false} OpsAlongRoute(p: TaintProgram, w: seq<int>)
    requires forall k :: 0 <= k < |w| ==> w[k] in p.cfg.blocks
    ensures OpsAlong(p, w) == Along(p.ops, w)
  {
    if w != [] {
      OpsAlongRoute(p, w[..|w| - 1]);
    }
  }

  /** A chain of assignments along some path carries taint to the end of block `b`. */
  ghost predicate CarriedOut(p: TaintProgram, b: int, x: string)
  {
    exists w :: Route(p.cfg, w) && w[|w| - 1] == b && Carried(p.sources, {}, Along(p.ops, w), x)
  }

  lemma OutIsCarried(p: TaintProgram, b: int, x: string)
    requires b in p.cfg.blocks
    ensures PathFact(Transfers(p), p.Flow().Arcs(), b, x) <==> CarriedOut(p, b, x)
  {
    hide Transfers, Carried, Scan;
    forall w | |w| > 0 && w[|w| - 1] == b
      ensures Route(p.cfg, w) <==> IsWalk(p.Flow().Arcs(), w)
      ensures Route(p.cfg, w) ==> (x in Fold(Transfers(p), w) <==> Carried(p.sources, {}, Along(p.ops, w), x))
    {
      RouteIsWalk(p.Flow(), w);
      if Route(p.cfg, w) {
        FoldIsScan(p, w);
        OpsAlongRoute(p, w);
        ScanIsCarried(p, OpsAlong(p, w), {}, x);
      }
    }
  }

  /** ... and to position `i` of block `b`. */
  ghost predicate CarriedTo(p: TaintProgram, b: int, i: nat, x: string)
  {
    && b in p.ops && i <= |p.ops[b]|
    && exists w :: Route(p.cfg, w) && w[|w| - 1] == b
                   && Carried(p.sources, {}, Along(p.ops, w[..|w| - 1]) + p.ops[b][..i], x)
  }

  lemma TaintedIsCarried(p: TaintProgram, b: int, i: nat, x: string)
    requires b in p.cfg.blocks && b in p.ops && i <= |p.ops[b]|
    ensures TaintedAt(p, b, i, x) <==> CarriedTo(p, b, i, x)
  {
    hide Carried, Scan;
    forall w | |w| > 0 && w[|w| - 1] == b
      ensures Route(p.cfg, w) <==> IsWalk(p.Flow().Arcs(), w)
      ensures Route(p.cfg, w) ==>
        (x in Scan(p, OpsAlong(p, w[..|w| - 1]) + p.OpsAt(b)[..i], {})
         <==> Carried(p.sources, {}, Along(p.ops, w[..|w| - 1]) + p.ops[b][..i], x))
    {
      RouteIsWalk(p.Flow(), w);
      if Route(p.cfg, w) {
        OpsAlongRoute(p, w[..|w| - 1]);
        ScanIsCarried(p, OpsAlong(p, w[..|w| - 1]) + p.ops[b][..i], {}, x);
      }
    }
  }

  /** Some path that ends in block `b`, started untainted and followed node by
      node, has variable `x` tainted when it reaches position `i` of `b`. */
  ghost predicate TaintedAt(p: TaintProgram, b: int, i: nat, x: string)
    requires i <= |p.OpsAt(b)|
  {
    exists w :: IsWalk(p.Flow().Arcs(), w) && Last(w) == b
                && x in Scan(p, OpsAlong(p, w[..|w| - 1]) + p.OpsAt(b)[..i], {})
  }

  /** A call of a sink, one of its arguments, and a chain of assignments along
      some path from a source to that argument. */
  ghost predicate ReachesSink(p: TaintProgram, b: int, i: int, x: string)
  {
    && b in p.cfg.blocks && b in p.ops && 0 <= i < |p.ops[b]|
    && p.ops[b][i].Call? && p.ops[b][i].callee in p.sinks
    && x != "" && x in p.ops[b][i].args
    && CarriedTo(p, b, i, x)
  }

  /** What is tainted at a position of a block, from what flows into the block. */
  lemma TaintedFromIncoming(p: TaintProgram, out: map<int, set<string>>, b: int, i: nat, x: string)
    requires i <= |p.OpsAt(b)| && out.Keys == p.cfg.blocks.Keys
    requires forall c, f :: c in out ==> (f in out[c] <==> PathFact(Transfers(p), p.Flow().Arcs(), c, f))
    ensures x in Scan(p, p.OpsAt(b)[..i], Incoming(out, p.Flow().Arcs(), b)) <==> TaintedAt(p, b, i, x)
  {
    hide Transfers, TaintedAt;
    if x in Scan(p, p.OpsAt(b)[..i], Incoming(out, p.Flow().Arcs(), b)) {
      IncomingTaints(p, out, b, i, x);
    }
    if TaintedAt(p, b, i, x) {
      TaintComesIn(p, out, b, i, x);
    }
  }

  lemma IncomingTaints(p: TaintProgram, out: map<int, set<string>>, b: int, i: nat, x: string)
    requires i <= |p.OpsAt(b)| && out.Keys == p.cfg.blocks.Keys
    requires forall c, f :: c in out ==> (f in out[c] <==> PathFact(Transfers(p), p.Flow().Arcs(), c, f))
    requires x in Scan(p, p.OpsAt(b)[..i], Incoming(out, p.Flow().Arcs(), b))
    ensures TaintedAt(p, b, i, x)
  {
    hide Transfers, Scan, Incoming;
    var arcs, ops := p.Flow().Arcs(), p.OpsAt(b)[..i];
    var into := Incoming(out, arcs, b);
    ScanFactByFact(p, ops, into, x);
    if x in Scan(p, ops, {}) {
      assert IsWalk(arcs, [b]) && Last([b]) == b && [b][..0] == [];
      assert OpsAlong(p, [b][..0]) + ops == ops;
    } else {
      var y :| y in into && x in Scan(p, ops, {y});
      IncomingFact(out, arcs, b, y);
      var c :| (c, b) in arcs && c in out && y in out[c];
      var w :| IsWalk(arcs, w) && Last(w) == c && y in Fold(Transfers(p), w);
      WalkExtend(arcs, w, b);
      var v := w + [b];
      assert v[..|v| - 1] == w;
      FoldIsScan(p, w);
      ScanAppend(p, OpsAlong(p, w), ops, {});
      ScanMonotone(p, ops, {y}, Scan(p, OpsAlong(p, w), {}));
      assert IsWalk(arcs, v) && Last(v) == b;
    }
  }

  lemma TaintComesIn(p: TaintProgram, out: map<int, set<string>>, b: int, i: nat, x: string)
    requires i <= |p.OpsAt(b)| && out.Keys == p.cfg.blocks.Keys
    requires forall c, f :: c in out ==> (f in out[c] <==> PathFact(Transfers(p), p.Flow().Arcs(), c, f))
    requires TaintedAt(p, b, i, x)
    ensures x in Scan(p, p.OpsAt(b)[..i], Incoming(out, p.Flow().Arcs(), b))
  {
    hide Transfers, Scan, Incoming;
    var arcs, ops := p.Flow().Arcs(), p.OpsAt(b)[..i];
    var into := Incoming(out, arcs, b);
    var w :| IsWalk(arcs, w) && Last(w) == b && x in Scan(p, OpsAlong(p, w[..|w| - 1]) + ops, {});
    var front := w[..|w| - 1];
    ScanAppend(p, OpsAlong(p, front), ops, {});
    FoldIsScan(p, front);
    forall y | y in Fold(Transfers(p), front)
      ensures y in into
    {
      if front != [] {
        WalkFront(arcs, w, |front|);
        assert (w[|w| - 2], w[|w| - 1]) in arcs;
        var c := Last(front);
        assert (c, b) in arcs && (c, b).0 in p.cfg.blocks;
        assert PathFact(Transfers(p), arcs, c, y);
        IncomingFact(out, arcs, b, y);
      }
    }
    ScanMonotone(p, ops, Fold(Transfers(p), front), into);
  }

  // ------------------------------------------------------------------
  // The engine
  // ------------------------------------------------------------------

  /** One linear scan of a block; also collects the sink arguments found
      tainted on the way. */
  method TaintTransfer(p: TaintProgram, b: int, incoming: set<string>)
    returns (tainted: set<string>, found: seq<Finding>)
    ensures tainted == Scan(p, p.OpsAt(b), incoming)
    ensures forall x :: x in tainted <==> Carried(p.sources, incoming, p.OpsAt(b), x)
    ensures forall c, i: nat, x :: Finding(c, i, x) in found <==>
              && c == b && i < |p.OpsAt(b)|
              && p.OpsAt(b)[i].Call? && p.OpsAt(b)[i].callee in p.sinks
              && x != "" && x in p.OpsAt(b)[i].args && Carried(p.sources, incoming, p.OpsAt(b)[..i], x)
  {
    hide Carried;
    var ops := p.OpsAt(b);
    tainted := incoming;
    found := [];
    var i := 0;
    while i < |ops|
      invariant i <= |ops|
      invariant tainted == Scan(p, ops[..i], incoming)
      invariant forall c, j: nat, x :: Finding(c, j, x) in found <==>
                  && c == b && j < i && ops[j].Call? && ops[j].callee in p.sinks
                  && x != "" && x in ops[j].args && Carried(p.sources, incoming, ops[..j], x)
    {
      forall x
        ensures x in tainted <==> Carried(p.sources, incoming, ops[..i], x)
      {
        ScanIsCarried(p, ops[..i], incoming, x);
      }
      assert ops[..i + 1][..i] == ops[..i] && ops[..i + 1][i] == ops[i];
      match ops[i] {
        case Assign(lhs, callees, names) =>
          var fromSource := exists c :: c in callees && c in p.sources;
          var fromVariable := exists x :: x in names && x in tainted;
          if lhs != "" {
            if fromSource || fromVariable {
              tainted := tainted + {lhs};
            } else {
              tainted := tainted - {lhs};
            }
          }
        case Call(callee, args) =>
          if callee in p.sinks {
            var more := SinkArguments(b, i, args, tainted);
            found := found + more;
          }
      }
      i := i + 1;
    }
    assert ops[..i] == ops;
    forall x
      ensures x in tainted <==> Carried(p.sources, incoming, ops, x)
    {
      ScanIsCarried(p, ops, incoming, x);
    }
  }

  method SinkArguments(b: int, index: nat, args: seq<string>, tainted: set<string>) returns (found: seq<Finding>)
    ensures forall c, i: nat, x :: Finding(c, i, x) in found <==>
              c == b && i == index && x != "" && x in args && x in tainted
  {
    found := [];
    var k := 0;
    while k < |args|
      invariant k <= |args|
      invariant forall c, i: nat, x :: Finding(c, i, x) in found <==>
                  c == b && i == index && x != "" && x in args[..k] && x in tainted
    {
      assert args[..k + 1] == args[..k] + [args[k]];
      if args[k] != "" && args[k] in tainted {
        found := found + [Finding(b, index, args[k])];
      }
      k := k + 1;
    }
    assert args[..k] == args;
  }

  /** The tainted variables at the end of every block. */
  method TaintedOut(p: TaintProgram) returns (out: map<int, set<string>>)
    requires p.Flow().Ordered()
    ensures out.Keys == p.cfg.blocks.Keys
    ensures forall b, x :: b in out ==> (x in out[b] <==> PathFact(Transfers(p), p.Flow().Arcs(), b, x))
    ensures forall b, x :: b in out ==> (x in out[b] <==> CarriedOut(p, b, x))
  {
    ghost var t, arcs, universe := Transfers(p), p.Flow().Arcs(), Universe(p);
    TransfersAreSound(p);
    hide Universe, Monotone, FactByFact, Bounded, Rising, Missing, Incoming, Scan, CarriedOut, Carried;
    out := map b | b in p.cfg.blocks :: {};
    RisingFromEmpty(t, arcs, out, universe);
    var changed := true;
    while changed
      invariant out.Keys == p.cfg.blocks.Keys && Rising(t, arcs, out, universe)
      invariant !changed ==> forall b :: b in p.cfg.order ==> out[b] == t(b, Incoming(out, arcs, b))
      decreases Missing(out, universe), changed
    {
      changed := false;
      ghost var before := out;
      var i := 0;
      while i < |p.cfg.order|
        invariant i <= |p.cfg.order|
        invariant out.Keys == p.cfg.blocks.Keys && Rising(t, arcs, out, universe)
        invariant Missing(out, universe) <= Missing(before, universe)
        invariant changed ==> Missing(out, universe) < Missing(before, universe)
        invariant !changed ==> out == before
        invariant !changed ==> forall j :: 0 <= j < i ==>
                    (p.cfg.order[j] in out
                     && out[p.cfg.order[j]] == t(p.cfg.order[j], Incoming(out, arcs, p.cfg.order[j])))
      {
        var b := p.cfg.order[i];
        assert b in p.cfg.blocks;
        var incoming := InSet(p.Flow(), out, b);
        var now, _ := TaintTransfer(p, b, incoming);
        Visit(t, arcs, out, universe, b);
        if now != out[b] {
          out := out[b := now];
          changed := true;
        }
        i := i + 1;
      }
    }
    Converged(p, out);
    forall b, x | b in out
      ensures x in out[b] <==> CarriedOut(p, b, x)
    {
      OutIsCarried(p, b, x);
    }
  }

  lemma Converged(p: TaintProgram, out: map<int, set<string>>)
    requires p.Flow().Ordered() && out.Keys == p.cfg.blocks.Keys
    requires Rising(Transfers(p), p.Flow().Arcs(), out, Universe(p))
    requires forall b :: b in p.cfg.order ==> out[b] == Transfers(p)(b, Incoming(out, p.Flow().Arcs(), b))
    ensures forall b, x :: b in out ==> (x in out[b] <==> PathFact(Transfers(p), p.Flow().Arcs(), b, x))
  {
    TransfersAreSound(p);
    assert PostSolution(Transfers(p), p.Flow().Arcs(), out);
    JustifiedPostSolutionIsExact(Transfers(p), p.Flow().Arcs(), out);
  }

  method PropagateTaint(p: TaintProgram) returns (findings: seq<Finding>)
    requires p.Flow().Ordered()
    ensures forall b, i: nat, x :: Finding(b, i, x) in findings <==> ReachesSink(p, b, i, x)
  {
    hide PathFact, TaintedAt, Scan, Incoming, CarriedTo, CarriedOut, Carried;
    var out := TaintedOut(p);
    findings := [];
    var k := 0;
    while k < |p.cfg.order|
      invariant k <= |p.cfg.order|
      invariant forall b, i: nat, x :: Finding(b, i, x) in findings <==> b in p.cfg.order[..k] && ReachesSink(p, b, i, x)
    {
      var b := p.cfg.order[k];
      assert b in p.cfg.blocks;
      var incoming := InSet(p.Flow(), out, b);
      var _, found := TaintTransfer(p, b, incoming);
      forall i: nat, x | i < |p.OpsAt(b)|
        ensures Carried(p.sources, incoming, p.OpsAt(b)[..i], x) <==> CarriedTo(p, b, i, x)
      {
        ScanIsCarried(p, p.OpsAt(b)[..i], incoming, x);
        TaintedFromIncoming(p, out, b, i, x);
        TaintedIsCarried(p, b, i, x);
      }
      findings := findings + found;
      assert p.cfg.order[..k + 1] == p.cfg.order[..k] + [b];
      k := k + 1;
    }
    assert p.cfg.order[..k] == p.cfg.order;
  }

  // ------------------------------------------------------------------
  // What a finding says
  // ------------------------------------------------------------------

  /** What the text of a finding claims: tainted on every path that reaches the call. */
  ghost predicate TaintedOnEveryPath(p: TaintProgram, b: int, i: nat, x: string)
    requires i <= |p.OpsAt(b)|
  {
    forall w :: WalkFromTo(p.Flow().Arcs(), w, ENTRY, b) ==>
      Carried(p.sources, {}, OpsAlong(p, w[..|w| - 1]) + p.OpsAt(b)[..i], x)
  }

  /** No block on the way to `b` can be entered from two places. */
  ghost predicate OneWayTo(arcs: set<(int, int)>, b: int)
  {
    forall u, v, c :: (u, c) in arcs && (v, c) in arcs && Reaches(arcs, c, b) ==> u == v
  }

  lemma {:induction false} OpsAlongAppend(p: TaintProgram, w: seq<int>, v: seq<int>)
    ensures OpsAlong(p, w + v) == OpsAlong(p, w) + OpsAlong(p, v)
    decreases |v|
  {
    if v == [] {
      assert w + v == w;
    } else {
      OpsAlongAppend(p, w, v[..|v| - 1]);
      assert (w + v)[..|w + v| - 1] == w + v[..|v| - 1];
    }
  }

  lemma EntryHasNoWayIn(arcs: set<(int, int)>, u: int, b: int)
    requires (forall v :: (v, ENTRY) !in arcs) && (u, b) in arcs
    ensures b != ENTRY
  {
    assert (u, ENTRY) !in arcs;
  }

  /** With one way in, every walk to `b` is the end of every walk from the entry. */
  lemma {:induction false} EndOfTheWay(arcs: set<(int, int)>, b: int, w: seq<int>, v: seq<int>)
    requires OneWayTo(arcs, b) && forall u :: (u, ENTRY) !in arcs
    requires IsWalk(arcs, w) && Last(w) == b && WalkFromTo(arcs, v, ENTRY, b)
    ensures |w| <= |v| && v[|v| - |w|..] == w
    decreases |w|
  {
    if |w| > 1 {
      var n, k := |w| - 1, |v| - 1;
      assert (w[n - 1], w[n]) in arcs;
      ReachesSelf(arcs, b);
      EntryHasNoWayIn(arcs, w[n - 1], b);
      assert (v[k - 1], v[k]) in arcs;
      var c := w[n - 1];
      assert v[k - 1] == c;
      WalkFront(arcs, w, n);
      WalkFront(arcs, v, k);
      forall x, y, d | (x, d) in arcs && (y, d) in arcs && Reaches(arcs, d, c)
        ensures x == y
      {
        ReachesArc(arcs, c, b);
        ReachesTransitive(arcs, d, c, b);
      }
      EndOfTheWay(arcs, c, w[..n], v[..k]);
      assert v[|v| - |w|..] == v[..k][k - n..] + [b] && w == w[..n] + [b];
    }
  }

  /** The text is right when no block on the way can be entered from two places. */
  lemma TextIsRightOnOneWay(p: TaintProgram, b: int, i: nat, x: string)
    requires ReachesSink(p, b, i, x)
    requires OneWayTo(p.Flow().Arcs(), b) && forall u :: (u, ENTRY) !in p.Flow().Arcs()
    ensures TaintedOnEveryPath(p, b, i, x)
  {
    hide Scan, OpsAlong, OneWayTo, CarriedTo, Carried;
    var arcs := p.Flow().Arcs();
    TaintedIsCarried(p, b, i, x);
    var w :| IsWalk(arcs, w) && Last(w) == b && x in Scan(p, OpsAlong(p, w[..|w| - 1]) + p.OpsAt(b)[..i], {});
    forall v | WalkFromTo(arcs, v, ENTRY, b)
      ensures Carried(p.sources, {}, OpsAlong(p, v[..|v| - 1]) + p.OpsAt(b)[..i], x)
    {
      EndOfTheWay(arcs, b, w, v);
      var first, rest := v[..|v| - |w|], w[..|w| - 1];
      assert v[..|v| - 1] == first + rest;
      OpsAlongAppend(p, first, rest);
      var a, c := OpsAlong(p, first), OpsAlong(p, rest) + p.OpsAt(b)[..i];
      assert OpsAlong(p, v[..|v| - 1]) + p.OpsAt(b)[..i] == a + c;
      ScanAppend(p, a, c, {});
      ScanMonotone(p, c, {}, Scan(p, a, {}));
      ScanIsCarried(p, a + c, {}, x);
    }
  }

  /** Wherever a path to `b` leads around a block `c` that another leads through,
      the text can be wrong: with a source read in `c` and a sink called in `b`,
      the argument is reported and untainted on the first path. */
  lemma TextIsWrongAround(g: Cfg, b: int, c: int, through: seq<int>, around: seq<int>) returns (p: TaintProgram)
    requires b in g.blocks && c in g.blocks && c != b
    requires forall a :: a in g.Arcs() ==> a.0 in g.blocks && a.1 in g.blocks
    requires WalkFromTo(g.Arcs(), through, c, b) && WalkFromTo(g.Arcs(), around, ENTRY, b) && c !in around
    ensures p.cfg == g && ReachesSink(p, b, 0, "x") && !TaintedOnEveryPath(p, b, 0, "x")
  {
    p := TaintProgram(g, map[c := [Assign("x", ["source"], [])], b := [Call("sink", ["x"])]], {"source"}, {"sink"});
    assert p.Flow().Arcs() == g.Arcs();
    TaintedThrough(p, b, c, through);
    TaintedIsCarried(p, b, 0, "x");
    ScanIsCarried(p, OpsAlong(p, around[..|around| - 1]), {}, "x");
    UntaintedAround(p, b, c, around[..|around| - 1]);
    assert OpsAlong(p, around[..|around| - 1]) + p.OpsAt(b)[..0] == OpsAlong(p, around[..|around| - 1]);
    assert "x" in p.OpsAt(b)[0].args;
  }

  lemma TaintedThrough(p: TaintProgram, b: int, c: int, through: seq<int>)
    requires c in p.cfg.blocks && b in p.cfg.blocks && c != b && p.sources == {"source"}
    requires p.ops == map[c := [Assign("x", ["source"], [])], b := [Call("sink", ["x"])]]
    requires WalkFromTo(p.Flow().Arcs(), through, c, b)
    ensures TaintedAt(p, b, 0, "x")
  {
    var front := through[..|through| - 1];
    assert front == [c] + front[1..];
    OpsAlongAppend(p, [c], front[1..]);
    var first := [Assign("x", ["source"], [])];
    assert OpsAlong(p, [c][..0]) == [] && OpsAlong(p, [c]) == [] + first == first;
    ScanAppend(p, first, OpsAlong(p, front[1..]), {});
    assert "source" in ["source"];
    assert first[..0] == [] && Scan(p, first[..0], {}) == {};
    assert Scan(p, first, {}) == {"x"};
    KeepsTaint(p, b, c, front[1..]);
    assert OpsAlong(p, front) + p.OpsAt(b)[..0] == OpsAlong(p, front);
  }

  lemma {:induction false} KeepsTaint(p: TaintProgram, b: int, c: int, w: seq<int>)
    requires c != b && p.sources == {"source"}
    requires p.ops == map[c := [Assign("x", ["source"], [])], b := [Call("sink", ["x"])]]
    ensures Scan(p, OpsAlong(p, w), {"x"}) == {"x"}
  {
    if w != [] {
      var n := |w| - 1;
      var ops := p.OpsAt(w[n]);
      KeepsTaint(p, b, c, w[..n]);
      ScanAppend(p, OpsAlong(p, w[..n]), ops, {"x"});
      assert "source" in ["source"];
      if ops != [] {
        assert ops[..0] == [] && Scan(p, ops[..0], {"x"}) == {"x"};
      }
    }
  }

  lemma {:induction false} UntaintedAround(p: TaintProgram, b: int, c: int, w: seq<int>)
    requires c != b && c !in w && p.ops == map[c := [Assign("x", ["source"], [])], b := [Call("sink", ["x"])]]
    ensures Scan(p, OpsAlong(p, w), {}) == {}
  {
    if w != [] {
      var n := |w| - 1;
      var ops := p.OpsAt(w[n]);
      UntaintedAround(p, b, c, w[..n]);
      ScanAppend(p, OpsAlong(p, w[..n]), ops, {});
      if ops != [] {
        assert ops[..0] == [] && Scan(p, ops[..0], {}) == {};
      }
    }
  }
}
