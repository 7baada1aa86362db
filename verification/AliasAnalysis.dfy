/** The analyzer object: its map grows statement by statement and pass by pass
    until a pass adds nothing or the pass bound is reached. */
module AliasAnalysis {

  import opened Alias
  import opened AliasVerdicts
  import opened AliasExact
  import opened Paths

  /** Adding pointees one at a time adds the whole set. */
  lemma AddOneMore(m: PointsTo, name: string, done: set<Pointee>, p: Pointee)
    ensures Add(Add(m, name, done), name, {p}) == Add(m, name, done + {p})
  {
    assert (Get(m, name) + done) + {p} == Get(m, name) + (done + {p});
    if done == {} {
      assert done + {p} == {p};
    }
  }

  /** Once a pass changes nothing, no later pass does. */
  lemma {:induction false} QuietPassesStay(m: PointsTo, sts: seq<Statement>, k: nat, n: nat)
    requires k <= n && After(Passes(m, sts, k), sts, |sts|) == Passes(m, sts, k)
    ensures Passes(m, sts, n) == Passes(m, sts, k)
  {
    hide After;
    if k < n {
      QuietPassesStay(m, sts, k, n - 1);
    }
  }

  class AliasAnalyzer {
    var pointsTo: PointsTo

    constructor ()
      ensures pointsTo == map[]
    {
      pointsTo := map[];
    }

    method AddAll(name: string, resolved: set<Pointee>)
      modifies this
      ensures pointsTo == Add(old(pointsTo), name, resolved)
    {
      hide Add;
      var left := resolved;
      ghost var m := pointsTo;
      AddNothing(m, name);
      assert resolved - left == {};
      while left != {}
        invariant left <= resolved
        invariant pointsTo == Add(m, name, resolved - left)
        decreases left
      {
        var p :| p in left;
        AddOneMore(m, name, resolved - left, p);
        assert resolved - left + {p} == resolved - (left - {p});
        pointsTo := pointsTo[name := Get(pointsTo, name) + {p}];
        AddSingle(Add(m, name, resolved - left), name, p);
        left := left - {p};
      }
      assert resolved - {} == resolved;
    }

    method SeedPointerParameters(params: seq<Parameter>)
      requires pointsTo == map[]
      modifies this
      ensures pointsTo == Seed(params)
    {
      assert params[..0] == [];
      for i := 0 to |params|
        invariant pointsTo == Seed(params[..i])
      {
        assert params[..i + 1][..i] == params[..i] && Last(params[..i + 1]) == params[i];
        if params[i].isPointer && params[i].name != "" {
          AddAll(params[i].name, {UNKNOWN_POINTEE});
        }
      }
      assert params[..|params|] == params;
    }

    method HandleStatement(st: Statement)
      modifies this
      ensures pointsTo == Handle(old(pointsTo), st)
    {
      match st {
        case VarDecl(name, isPointer, initializer) =>
          if name != "" && isPointer && initializer.Some? {
            AddAll(name, Resolve(pointsTo, initializer.value));
          }
        case Assignment(lhs, rhs) =>
          if lhs.Some? && lhs.value != "" {
            AddAll(lhs.value, Resolve(pointsTo, rhs));
          }
        case StoreThrough(_, _) =>
      }
    }

    method Pass(relevant: seq<Statement>)
      modifies this
      ensures pointsTo == After(old(pointsTo), relevant, |relevant|)
    {
      ghost var m := pointsTo;
      for i := 0 to |relevant|
        invariant pointsTo == After(m, relevant, i)
      {
        HandleStatement(relevant[i]);
      }
    }

    /** Stopping after one pass more than there are statements loses nothing:
        the map is closed, and it holds exactly the derivable origins. */
    method Analyze(params: seq<Parameter>, relevant: seq<Statement>)
      modifies this
      ensures pointsTo == Analyzed(params, relevant)
      ensures Saturated(pointsTo, relevant)
      ensures forall o, d :: d in Holders(pointsTo, o) <==> Derived(params, relevant, o, d)
      ensures forall o, d :: (d in pointsTo && exists p :: p in pointsTo[d] && p.origin == o) <==> MayHold(params, relevant, o, d)
    {
      hide Passes, After, Holders, Derived, Saturated, Seed, MayHold;
      pointsTo := map[];
      SeedPointerParameters(params);
      NoPasses(params, relevant);
      var k := 0;
      while k < |relevant| + 1
        invariant k <= |relevant| + 1
        invariant pointsTo == Passes(Seed(params), relevant, k)
      {
        var before := pointsTo;
        Pass(relevant);
        OnePassMore(Seed(params), relevant, k);
        k := k + 1;
        if pointsTo == before {
          QuietPassesStay(Seed(params), relevant, k - 1, |relevant| + 1);
          break;
        }
      }
      BoundSuffices(params, relevant);
      forall o, d
        ensures d in Holders(pointsTo, o) <==> Derived(params, relevant, o, d)
      {
        PointsToIsExact(params, relevant, o, d);
      }
      forall o, d
        ensures (d in pointsTo && exists p :: p in pointsTo[d] && p.origin == o) <==> MayHold(params, relevant, o, d)
      {
        HoldersMayHold(params, relevant, o, d);
      }
    }
  }

  lemma AddNothing(m: PointsTo, name: string)
    ensures Add(m, name, {}) == m
  {
  }

  lemma AddSingle(m: PointsTo, name: string, p: Pointee)
    ensures Add(m, name, {p}) == m[name := Get(m, name) + {p}]
  {
  }

  lemma NoPasses(params: seq<Parameter>, sts: seq<Statement>)
    ensures Passes(Seed(params), sts, 0) == Seed(params)
  {
  }

  lemma OnePassMore(m: PointsTo, sts: seq<Statement>, k: nat)
    ensures Passes(m, sts, k + 1) == After(Passes(m, sts, k), sts, |sts|)
  {
  }
}
