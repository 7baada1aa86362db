/** How sure the points-to map is of a named pointee: it is merely possible
    exactly where a copy out of a name with several pointees has brought it. */
module AliasConfidence {
  import opened Alias
  import opened AliasVerdicts
  import opened AliasExact
  import opened Collections
  import opened Paths

  ghost predicate Several(params: seq<Parameter>, sts: seq<Statement>, d: string)
  {
    exists o, r :: o != r && MayHold(params, sts, o, d) && MayHold(params, sts, r, d)
  }

  /** A copy takes the origin from a name that may hold others as well to one
      from which copies lead to `d`. */
  ghost predicate Mixed(params: seq<Parameter>, sts: seq<Statement>, o: Origin, d: string)
  {
    exists e, f :: MayHold(params, sts, o, e) && Several(params, sts, e) && Copied(sts, e, f)
                   && Reaches(CopyArcs(sts), f, d)
  }

  lemma MixedOn(params: seq<Parameter>, sts: seq<Statement>, o: Origin, c: string, d: string)
    requires Mixed(params, sts, o, c) && Copied(sts, c, d)
    ensures Mixed(params, sts, o, d)
  {
    hide MayHold, Several, Copied, CopyArcs, Reaches;
    var e, f :| MayHold(params, sts, o, e) && Several(params, sts, e) && Copied(sts, e, f) && Reaches(CopyArcs(sts), f, c);
    CopiedIsArc(sts, c, d);
    ReachesArc(CopyArcs(sts), c, d);
    ReachesTransitive(CopyArcs(sts), f, c, d);
  }

  lemma MixedHere(params: seq<Parameter>, sts: seq<Statement>, o: Origin, c: string, d: string)
    requires MayHold(params, sts, o, c) && Several(params, sts, c) && Copied(sts, c, d)
    ensures Mixed(params, sts, o, d)
  {
    hide MayHold, Several, Copied, CopyArcs, Reaches;
    ReachesSelf(CopyArcs(sts), d);
  }

  /** Every merely possible pointee with a name is there for a mix. */
  ghost predicate Accounted(params: seq<Parameter>, sts: seq<Statement>, m: PointsTo)
  {
    forall d, x, k :: d in m && Pointee(Named(x, k), Possible) in m[d] ==> Mixed(params, sts, Named(x, k), d)
  }

  /** Every pointee is derived from the statements. */
  ghost predicate Founded(params: seq<Parameter>, sts: seq<Statement>, m: PointsTo)
  {
    forall d, p :: d in m && p in m[d] ==> MayHold(params, sts, p.origin, d)
  }

  lemma DerivedIsFounded(params: seq<Parameter>, sts: seq<Statement>, m: PointsTo)
    requires forall o :: AllDerived(params, sts, m, o)
    ensures Founded(params, sts, m)
  {
    hide MayHold, Derived;
    forall d, p | d in m && p in m[d]
      ensures MayHold(params, sts, p.origin, d)
    {
      assert d in Holders(m, p.origin);
      assert AllDerived(params, sts, m, p.origin);
      MayHoldIsDerived(params, sts, p.origin, d);
    }
  }

  lemma HandleAccounted(params: seq<Parameter>, sts: seq<Statement>, m: PointsTo, i: nat)
    requires i < |sts| && WellGraded(m) && Founded(params, sts, m) && Accounted(params, sts, m)
    ensures Accounted(params, sts, Handle(m, sts[i]))
  {
    hide MayHold, Mixed, WellGraded;
    var st, n := sts[i], Handle(m, sts[i]);
    forall d, x, k | d in n && Pointee(Named(x, k), Possible) in n[d]
      ensures Mixed(params, sts, Named(x, k), d)
    {
      var q := Pointee(Named(x, k), Possible);
      if !(d in m && q in m[d]) {
        var rhs := Writes(st).value.1;
        var c := rhs.reference.name;
        assert Writes(st) == Some((d, rhs)) && q in Resolve(m, rhs);
        assert rhs.Name? && c in m && !rhs.reference.isFunction && !rhs.reference.isArray;
        GivesIsWrites(st, d, rhs);
        assert Gives(sts[i], d, rhs) && PlainName(rhs, c);
        assert Copied(sts, c, d);
        var p: Pointee :| p in m[c] && Downgraded(p, |m[c]| > 1) == q;
        CopyAccounted(params, sts, m, c, p, d);
      }
    }
  }

  lemma CopyAccounted(params: seq<Parameter>, sts: seq<Statement>, m: PointsTo, c: string, p: Pointee, d: string)
    requires WellGraded(m) && Founded(params, sts, m) && Accounted(params, sts, m)
    requires c in m && p in m[c] && p.origin.Named? && Downgraded(p, |m[c]| > 1).confidence == Possible && Copied(sts, c, d)
    ensures Mixed(params, sts, p.origin, d)
  {
    hide MayHold, Mixed, Copied;
    if p.confidence == Possible {
      MixedOn(params, sts, p.origin, c, d);
    } else {
      assert Graded(m[c]);
      LargeMeansSeveralOrigins(m[c]);
      var a, b :| a in m[c] && b in m[c] && a.origin != b.origin;
      assert MayHold(params, sts, a.origin, c) && MayHold(params, sts, b.origin, c);
      MixedHere(params, sts, p.origin, c, d);
    }
  }

  lemma {:induction false} AfterAccounted(params: seq<Parameter>, sts: seq<Statement>, m: PointsTo, k: nat)
    requires k <= |sts| && WellGraded(m) && Seed(params).Keys <= m.Keys
    requires Accounted(params, sts, m) && forall o :: AllDerived(params, sts, m, o)
    ensures Accounted(params, sts, After(m, sts, k))
  {
    hide Handle, Seed, AllDerived, WellGraded, Accounted, Founded;
    if k > 0 {
      AfterAccounted(params, sts, m, k - 1);
      var n := After(m, sts, k - 1);
      forall o
        ensures AllDerived(params, sts, n, o)
      {
        AfterDerived(params, sts, m, k - 1, o);
      }
      DerivedIsFounded(params, sts, n);
      AfterGraded(m, sts, k - 1);
      HandleAccounted(params, sts, n, k - 1);
    }
  }

  lemma {:induction false} SeedAccounted(params: seq<Parameter>)
    ensures forall d, p :: d in Seed(params) && p in Seed(params)[d] ==> p == UNKNOWN_POINTEE
  {
    if params != [] {
      SeedAccounted(params[..|params| - 1]);
    }
  }

  lemma {:induction false} PassesAccounted(params: seq<Parameter>, sts: seq<Statement>, k: nat)
    ensures Accounted(params, sts, Passes(Seed(params), sts, k))
  {
    hide After, Mixed, AllDerived, Seed, WellGraded;
    SeedGraded(params);
    if k == 0 {
      SeedAccounted(params);
    } else {
      hide Accounted;
      PassesAccounted(params, sts, k - 1);
      var m := Passes(Seed(params), sts, k - 1);
      PassesGraded(Seed(params), sts, k - 1);
      forall o
        ensures AllDerived(params, sts, m, o)
      {
        PassesDerived(params, sts, k - 1, o);
      }
      SeedKept(params, sts, k - 1);
      AfterAccounted(params, sts, m, |sts|);
    }
  }

  lemma SeedKept(params: seq<Parameter>, sts: seq<Statement>, k: nat)
    ensures Seed(params).Keys <= Passes(Seed(params), sts, k).Keys
  {
    hide After, Seed;
    SeedGraded(params);
    if k > 0 {
      PassesKeys(Seed(params), sts, k);
    }
  }

  // ----- The other way -----

  /** In a closed map a copy brings its pointees, as it grades them. */
  lemma CopyBrings(m: PointsTo, sts: seq<Statement>, c: string, d: string, p: Pointee)
    requires Saturated(m, sts) && Copied(sts, c, d) && c in m && p in m[c]
    ensures d in m && Downgraded(p, |m[c]| > 1) in m[d]
  {
    var i, rhs :| 0 <= i < |sts| && Gives(sts[i], d, rhs) && PlainName(rhs, c);
    GivesIsWrites(sts[i], d, rhs);
    assert ClosedUnder(m, sts[i]);
    assert Downgraded(p, |m[c]| > 1) in Resolve(m, rhs);
    assert Resolve(m, rhs) <= Add(m, d, Resolve(m, rhs))[d];
  }

  lemma {:induction false} PossibleAlong(m: PointsTo, sts: seq<Statement>, w: seq<string>, p: Pointee, k: nat)
    requires Saturated(m, sts) && IsWalk(CopyArcs(sts), w) && k < |w| && p.confidence == Possible
    requires w[0] in m && p in m[w[0]]
    ensures w[k] in m && p in m[w[k]]
  {
    hide Saturated, CopyArcs, Copied;
    if k > 0 {
      PossibleAlong(m, sts, w, p, k - 1);
      assert (w[k - 1], w[k]) in CopyArcs(sts);
      CopiedIsArc(sts, w[k - 1], w[k]);
      CopyBrings(m, sts, w[k - 1], w[k], p);
    }
  }

  lemma MixedIsPossible(params: seq<Parameter>, sts: seq<Statement>, x: string, k: Kind, d: string)
    requires Mixed(params, sts, Named(x, k), d)
    ensures var m := Analyzed(params, sts); d in m && Pointee(Named(x, k), Possible) in m[d]
  {
    hide MayHold, Several, Copied, CopyArcs, Analyzed, Saturated, WellGraded;
    var o := Named(x, k);
    var m: PointsTo := Analyzed(params, sts);
    var e, f :| MayHold(params, sts, o, e) && Several(params, sts, e) && Copied(sts, e, f) && Reaches(CopyArcs(sts), f, d);
    var w :| WalkFromTo(CopyArcs(sts), w, f, d);
    AnalyzedShape(params, sts);
    HoldersMayHold(params, sts, o, e);
    assert e in m && exists p :: p in m[e] && p.origin == o;
    var p: Pointee :| p in m[e] && p.origin == o;
    SeveralIsLarge(params, sts, e);
    NamedGrades(m, e, p);
    CopyBrings(m, sts, e, f, p);
    PossibleAlong(m, sts, w, Pointee(o, Possible), |w| - 1);
  }

  lemma NamedGrades(m: PointsTo, e: string, p: Pointee)
    requires WellGraded(m) && e in m && p in m[e] && p.origin.Named?
    ensures Downgraded(p, true) == Pointee(p.origin, Possible)
  {
    assert Graded(m[e]);
  }

  lemma SeveralIsLarge(params: seq<Parameter>, sts: seq<Statement>, e: string)
    requires Several(params, sts, e)
    ensures var m := Analyzed(params, sts); e in m && |m[e]| > 1
  {
    hide MayHold, Passes, WellGraded;
    var m: PointsTo := Analyzed(params, sts);
    var o, r :| o != r && MayHold(params, sts, o, e) && MayHold(params, sts, r, e);
    HoldersMayHold(params, sts, o, e);
    HoldersMayHold(params, sts, r, e);
    var p: Pointee :| p in m[e] && p.origin == o;
    var q: Pointee :| q in m[e] && q.origin == r;
    SubsetSize({p, q}, m[e]);
  }

  /** A pointee that names something is merely possible for a name exactly if a
      copy out of a name that may hold others as well has brought it, on the last
      step or before. */
  lemma PossibleIsExact(params: seq<Parameter>, sts: seq<Statement>, x: string, k: Kind, d: string)
    ensures var m := Analyzed(params, sts);
      (d in m && Pointee(Named(x, k), Possible) in m[d]) <==> Mixed(params, sts, Named(x, k), d)
  {
    hide Mixed;
    PassesAccounted(params, sts, |sts| + 1);
    if Mixed(params, sts, Named(x, k), d) {
      MixedIsPossible(params, sts, x, k, d);
    }
  }

  /** Where a statement itself names the pointee, the map is sure of it; and of
      every other pointee the confidence is fixed. */
  lemma SaidIsDefinite(params: seq<Parameter>, sts: seq<Statement>, i: nat, d: string, rhs: Rhs, x: string, k: Kind)
    requires i < |sts| && Gives(sts[i], d, rhs) && Says(rhs, Named(x, k))
    ensures var m := Analyzed(params, sts); d in m && Pointee(Named(x, k), Definite) in m[d]
  {
    hide Passes, WellGraded;
    var m: PointsTo := Analyzed(params, sts);
    AnalyzedShape(params, sts);
    GivesIsWrites(sts[i], d, rhs);
    assert sts[i] in sts && ClosedUnder(m, sts[i]);
    assert Pointee(Named(x, k), Definite) in Resolve(m, rhs);
    assert Resolve(m, rhs) <= Add(m, d, Resolve(m, rhs))[d];
  }

  lemma OtherConfidences(params: seq<Parameter>, sts: seq<Statement>, d: string, p: Pointee)
    requires var m := Analyzed(params, sts); d in m && p in m[d]
    ensures match p.origin
            case Named(_, _) => p.confidence != NotKnown
            case Heap(_) => p.confidence == Possible
            case Unknown => p.confidence == NotKnown
  {
    AnalyzedShape(params, sts);
    assert Graded(Analyzed(params, sts)[d]);
  }
}
