/** The points-to map and the verdicts on it, told from the statements alone. */
module AliasExact {
  import opened Alias
  import opened AliasVerdicts
  import opened Collections
  import opened Paths

  // ----- What a statement says -----

  /** The statement gives the name the value of the expression. */
  ghost predicate Gives(st: Statement, d: string, rhs: Rhs)
  {
    && d != ""
    && ((st.VarDecl? && st.isPointer && st.name == d && st.initializer.Some? && st.initializer.value == rhs)
        || (st.Assignment? && st.lhs.Some? && st.lhs.value == d && st.rhs == rhs))
  }

  /** The expression is the name of a variable that is neither function nor array. */
  ghost predicate PlainName(rhs: Rhs, c: string)
  {
    rhs.Name? && rhs.reference.name == c && !rhs.reference.isFunction && !rhs.reference.isArray
  }

  /** The expression itself says what it points to. */
  ghost predicate Says(rhs: Rhs, o: Origin)
  {
    match o
    case Named(x, k) =>
      && x != ""
      && ((rhs.AddressOf? && rhs.operand.Some? && rhs.operand.value.name == x
           && k == if rhs.operand.value.isFunction then Function else Variable)
          || (rhs.Name? && rhs.reference.name == x && rhs.reference.isFunction && k == Function)
          || (rhs.Name? && rhs.reference.name == x && !rhs.reference.isFunction && rhs.reference.isArray && k == Array))
    case Heap(callee) => rhs.Call? && rhs.callee == callee
    case Unknown => rhs.AddressOf? && (rhs.operand.None? || rhs.operand.value.name == "")
  }

  ghost predicate PointerParameter(params: seq<Parameter>, d: string)
  {
    d != "" && exists k :: 0 <= k < |params| && params[k].name == d && params[k].isPointer
  }

  /** The name is a pointer parameter or one of the first statements makes it point somewhere. */
  ghost predicate Seen(params: seq<Parameter>, sts: seq<Statement>, i: int, c: string)
  {
    || PointerParameter(params, c)
    || exists j :: 0 <= j < i && j < |sts| && PointsSomewhere(sts[j], c)
  }

  ghost predicate PointsSomewhere(st: Statement, d: string)
  {
    exists rhs :: Gives(st, d, rhs) && ((exists c :: PlainName(rhs, c)) || exists o :: Says(rhs, o))
  }

  /** A pointer parameter may hold anything. A statement gives what its expression
      says, and something unknown for a name not seen before. */
  ghost predicate Begins(params: seq<Parameter>, sts: seq<Statement>, o: Origin, d: string)
  {
    || (o == Unknown && PointerParameter(params, d))
    || exists i :: 0 <= i < |sts| && BeginsAt(params, sts, i, o, d)
  }

  ghost predicate BeginsAt(params: seq<Parameter>, sts: seq<Statement>, i: nat, o: Origin, d: string)
    requires i < |sts|
  {
    exists rhs :: Gives(sts[i], d, rhs)
      && (Says(rhs, o) || (o == Unknown && exists c :: PlainName(rhs, c) && !Seen(params, sts, i, c)))
  }

  ghost predicate Copied(sts: seq<Statement>, c: string, d: string)
  {
    exists i, rhs :: 0 <= i < |sts| && Gives(sts[i], d, rhs) && PlainName(rhs, c)
  }

  /** Copies carry what the first name begins with to `d`. */
  ghost predicate MayHold(params: seq<Parameter>, sts: seq<Statement>, o: Origin, d: string)
  {
    exists w: seq<string> :: |w| > 0 && w[|w| - 1] == d && Begins(params, sts, o, w[0])
                && forall k :: 0 < k < |w| ==> Copied(sts, w[k - 1], w[k])
  }

  // ----- The map -----

  lemma GivesIsWrites(st: Statement, d: string, rhs: Rhs)
    ensures Gives(st, d, rhs) <==> Writes(st) == Some((d, rhs))
  {
  }

  lemma {:induction false} ParametersSeeded(params: seq<Parameter>, d: string)
    ensures d in Seed(params) <==> PointerParameter(params, d)
  {
    if params != [] {
      var n := |params| - 1;
      ParametersSeeded(params[..n], d);
      if PointerParameter(params, d) {
        var k :| 0 <= k < |params| && params[k].name == d && params[k].isPointer;
        assert k < n ==> params[..n][k] == params[k];
      }
    }
  }

  lemma TracksIsPoints(st: Statement, d: string)
    ensures Tracks(st) == Some(d) <==> PointsSomewhere(st, d)
  {
    hide Gives;
    forall rhs
      ensures Gives(st, d, rhs) <==> Writes(st) == Some((d, rhs))
    {
      GivesIsWrites(st, d, rhs);
    }
    if Writes(st).Some? && Writes(st).value.0 == d {
      YieldsSomething(Writes(st).value.1);
    }
  }

  lemma YieldsSomething(rhs: Rhs)
    ensures Yields(rhs) <==> (exists c :: PlainName(rhs, c)) || exists o :: Says(rhs, o)
  {
    match rhs
    case AddressOf(operand) =>
      if operand.Some? && operand.value.name != "" {
        assert Says(rhs, Named(operand.value.name, if operand.value.isFunction then Function else Variable));
      } else {
        assert Says(rhs, Unknown);
      }
    case Name(r) =>
      assert PlainName(rhs, r.name) || r.name == ""
             || Says(rhs, Named(r.name, if r.isFunction then Function else Array));
    case Call(callee) => assert Says(rhs, Heap(callee));
    case Other =>
  }

  lemma SeenIsTracked(params: seq<Parameter>, sts: seq<Statement>, i: nat, c: string)
    requires i <= |sts|
    ensures Seen(params, sts, i, c) <==> c in Seed(params).Keys + TrackedBy(sts[..i])
  {
    hide Seed, PointsSomewhere, Tracks;
    ParametersSeeded(params, c);
    forall j | 0 <= j < i
      ensures Tracks(sts[j]) == Some(c) <==> PointsSomewhere(sts[j], c)
    {
      TracksIsPoints(sts[j], c);
    }
    if j :| 0 <= j < i && PointsSomewhere(sts[j], c) {
      assert sts[..i][j] == sts[j];
    }
  }

  lemma IntroducesIsBegins(params: seq<Parameter>, sts: seq<Statement>, i: nat, o: Origin, d: string)
    requires i < |sts|
    ensures Introduces(params, sts, i, o) && Writes(sts[i]).Some? && Writes(sts[i]).value.0 == d
            <==> BeginsAt(params, sts, i, o, d)
  {
    hide Gives, Seen, Seed, TrackedBy;
    forall rhs
      ensures Gives(sts[i], d, rhs) <==> Writes(sts[i]) == Some((d, rhs))
    {
      GivesIsWrites(sts[i], d, rhs);
    }
    if Writes(sts[i]).Some? {
      var rhs := Writes(sts[i]).value.1;
      if rhs.Name? {
        SeenIsTracked(params, sts, i, rhs.reference.name);
        assert !rhs.reference.isFunction && !rhs.reference.isArray ==> PlainName(rhs, rhs.reference.name);
      }
    }
  }

  lemma RootsBegin(params: seq<Parameter>, sts: seq<Statement>, o: Origin, d: string)
    ensures d in Roots(params, sts, o) <==> Begins(params, sts, o, d)
  {
    hide BeginsAt, Seed, Offers, Writes;
    ParametersSeeded(params, d);
    forall i | 0 <= i < |sts|
      ensures Introduces(params, sts, i, o) && Writes(sts[i]).Some? && Writes(sts[i]).value.0 == d
              <==> BeginsAt(params, sts, i, o, d)
    {
      IntroducesIsBegins(params, sts, i, o, d);
    }
  }

  lemma CopiedIsArc(sts: seq<Statement>, c: string, d: string)
    ensures Copied(sts, c, d) <==> (c, d) in CopyArcs(sts)
  {
    hide Gives;
    if Copied(sts, c, d) {
      var i, rhs :| 0 <= i < |sts| && Gives(sts[i], d, rhs) && PlainName(rhs, c);
      GivesIsWrites(sts[i], d, rhs);
      assert sts[i] in sts && IsCopy(sts[i]) && CopyArc(sts[i]) == (c, d);
    }
    if (c, d) in CopyArcs(sts) {
      var st :| st in sts && IsCopy(st) && CopyArc(st) == (c, d);
      var i :| 0 <= i < |sts| && sts[i] == st;
      GivesIsWrites(st, d, Writes(st).value.1);
      assert Gives(sts[i], d, Writes(st).value.1) && PlainName(Writes(st).value.1, c);
    }
  }

  lemma MayHoldIsDerived(params: seq<Parameter>, sts: seq<Statement>, o: Origin, d: string)
    ensures MayHold(params, sts, o, d) <==> Derived(params, sts, o, d)
  {
    hide Begins, Copied, CopyArcs, Roots;
    forall c, e
      ensures Copied(sts, c, e) <==> (c, e) in CopyArcs(sts)
    {
      CopiedIsArc(sts, c, e);
    }
    forall e
      ensures e in Roots(params, sts, o) <==> Begins(params, sts, o, e)
    {
      RootsBegin(params, sts, o, e);
    }
    if MayHold(params, sts, o, d) {
      var w: seq<string> :| |w| > 0 && w[|w| - 1] == d && Begins(params, sts, o, w[0])
               && forall k :: 0 < k < |w| ==> Copied(sts, w[k - 1], w[k]);
      assert WalkFromTo(CopyArcs(sts), w, w[0], d);
    }
    if Derived(params, sts, o, d) {
      var e :| e in Roots(params, sts, o) && Reaches(CopyArcs(sts), e, d);
      var w :| WalkFromTo(CopyArcs(sts), w, e, d);
      assert forall k :: 0 < k < |w| ==> Copied(sts, w[k - 1], w[k]);
    }
  }

  /** A name has the pointees that begin somewhere and are copied to it, and no others. */
  lemma HoldersMayHold(params: seq<Parameter>, sts: seq<Statement>, o: Origin, d: string)
    ensures var m := Analyzed(params, sts);
      (d in m && exists p :: p in m[d] && p.origin == o) <==> MayHold(params, sts, o, d)
  {
    hide Passes, MayHold, Derived;
    MayHoldIsDerived(params, sts, o, d);
    PointsToIsExact(params, sts, o, d);
    var m: PointsTo := Analyzed(params, sts);
    if d in m && exists p :: p in m[d] && p.origin == o {
      assert o in Origins(m[d]);
    }
  }

  // ----- The verdicts -----

  /** The map knows something about where the name may point. */
  ghost predicate Known(params: seq<Parameter>, sts: seq<Statement>, d: string)
  {
    exists o :: MayHold(params, sts, o, d)
  }

  /** Both may hold the address of one name, or what one function returned. */
  ghost predicate Shared(params: seq<Parameter>, sts: seq<Statement>, a: string, b: string)
  {
    || (exists x, k, l :: MayHold(params, sts, Named(x, k), a) && MayHold(params, sts, Named(x, l), b))
    || (exists c :: MayHold(params, sts, Heap(c), a) && MayHold(params, sts, Heap(c), b))
  }

  /** The address of `x` is all that the name may hold. */
  ghost predicate Only(params: seq<Parameter>, sts: seq<Statement>, d: string, x: string)
  {
    exists k :: forall o :: MayHold(params, sts, o, d) <==> o == Named(x, k)
  }

  ghost predicate MayBeUnknown(params: seq<Parameter>, sts: seq<Statement>, a: string, b: string)
  {
    MayHold(params, sts, Unknown, a) || MayHold(params, sts, Unknown, b)
  }

  lemma KnownIsKey(params: seq<Parameter>, sts: seq<Statement>, d: string)
    ensures Get(Analyzed(params, sts), d) != {} <==> Known(params, sts, d)
    ensures HasUnknown(Get(Analyzed(params, sts), d)) <==> MayHold(params, sts, Unknown, d)
  {
    hide Passes, MayHold;
    var m: PointsTo := Analyzed(params, sts);
    forall o
      ensures (d in m && exists p :: p in m[d] && p.origin == o) <==> MayHold(params, sts, o, d)
    {
      HoldersMayHold(params, sts, o, d);
    }
    if p :| p in Get(m, d) {
      assert MayHold(params, sts, p.origin, d);
    }
  }

  lemma SharedIsSame(params: seq<Parameter>, sts: seq<Statement>, a: string, b: string)
    requires !MayHold(params, sts, Unknown, a)
    ensures var m := Analyzed(params, sts);
      (exists p, q :: p in Get(m, a) && q in Get(m, b) && SameTarget(p.origin, q.origin)) <==> Shared(params, sts, a, b)
  {
    hide Passes, MayHold;
    var m: PointsTo := Analyzed(params, sts);
    forall o, d
      ensures (d in m && exists p :: p in m[d] && p.origin == o) <==> MayHold(params, sts, o, d)
    {
      HoldersMayHold(params, sts, o, d);
    }
    if p, q :| p in Get(m, a) && q in Get(m, b) && SameTarget(p.origin, q.origin) {
      assert MayHold(params, sts, p.origin, a) && MayHold(params, sts, q.origin, b);
    }
    if Shared(params, sts, a, b) {
      if x, k, l :| MayHold(params, sts, Named(x, k), a) && MayHold(params, sts, Named(x, l), b) {
        var p :| p in m[a] && p.origin == Named(x, k);
        var q :| q in m[b] && q.origin == Named(x, l);
        assert SameTarget(p.origin, q.origin);
      } else {
        var c :| MayHold(params, sts, Heap(c), a) && MayHold(params, sts, Heap(c), b);
        var p :| p in m[a] && p.origin == Heap(c);
        var q :| q in m[b] && q.origin == Heap(c);
        assert SameTarget(p.origin, q.origin);
      }
    }
  }

  /** A set is definite exactly if its one origin is a name. */
  lemma DefiniteIsOnly(params: seq<Parameter>, sts: seq<Statement>, d: string)
    ensures IsDefinite(Get(Analyzed(params, sts), d)) <==> exists x :: Only(params, sts, d, x)
  {
    hide Passes, MayHold;
    var m: PointsTo := Analyzed(params, sts);
    AnalyzedShape(params, sts);
    hide Saturated, TrackedBy, Seed;
    forall o
      ensures (d in m && exists p :: p in m[d] && p.origin == o) <==> MayHold(params, sts, o, d)
    {
      HoldersMayHold(params, sts, o, d);
    }
    if IsDefinite(Get(m, d)) {
      var p :| p in m[d];
      OnlyMember(m[d], p);
      assert forall o :: MayHold(params, sts, o, d) <==> o == p.origin;
      assert Only(params, sts, d, p.origin.name);
    }
    if x :| Only(params, sts, d, x) {
      var k :| forall o :: MayHold(params, sts, o, d) <==> o == Named(x, k);
      assert MayHold(params, sts, Named(x, k), d);
      forall p | p in m[d]
        ensures p.origin == Named(x, k)
      {
        assert MayHold(params, sts, p.origin, d);
      }
      LargeMeansSeveralOrigins(m[d]);
      assert !SeveralOrigins(m[d]);
      assert Graded(m[d]);
      NotEmpty(m[d]);
    }
  }

  lemma NotEmpty<T>(s: set<T>)
    requires s != {}
    ensures |s| > 0
  {
  }

  /** The statements determine the verdict: yes for what may be unknown or shared,
      unknown where the map knows nothing or not enough, and a definite yes for
      two pointers that can hold one and the same address alone. */
  lemma VerdictIsExact(params: seq<Parameter>, sts: seq<Statement>, a: string, b: string)
    ensures var verdict := MayAlias(Analyzed(params, sts), a, b);
      && (verdict.0 <==> Known(params, sts, a) && Known(params, sts, b)
                         && (MayBeUnknown(params, sts, a, b) || Shared(params, sts, a, b)))
      && (verdict.1 == NotKnown <==> !Known(params, sts, a) || !Known(params, sts, b) || MayBeUnknown(params, sts, a, b))
      && (verdict.1 == Possible ==> verdict.0)
      && (verdict == (true, Definite) <==> exists x :: Only(params, sts, a, x) && Only(params, sts, b, x))
  {
    hide Passes, MayHold, Shared, Only, Known;
    KnownIsKey(params, sts, a);
    KnownIsKey(params, sts, b);
    OnlyIsKnown(params, sts, a, b);
    if Known(params, sts, a) && Known(params, sts, b) && !MayBeUnknown(params, sts, a, b) {
      SharedIsSame(params, sts, a, b);
      if Shared(params, sts, a, b) {
        DefiniteIsOnly(params, sts, a);
        DefiniteIsOnly(params, sts, b);
        OnlyTogether(params, sts, a, b);
      }
    }
  }

  lemma OnlyIsKnown(params: seq<Parameter>, sts: seq<Statement>, a: string, b: string)
    ensures (exists x :: Only(params, sts, a, x) && Only(params, sts, b, x)) ==>
      Known(params, sts, a) && Known(params, sts, b) && !MayBeUnknown(params, sts, a, b) && Shared(params, sts, a, b)
  {
    hide MayHold;
    if x :| Only(params, sts, a, x) && Only(params, sts, b, x) {
      var k :| forall o :: MayHold(params, sts, o, a) <==> o == Named(x, k);
      var l :| forall o :: MayHold(params, sts, o, b) <==> o == Named(x, l);
      assert MayHold(params, sts, Named(x, k), a) && MayHold(params, sts, Named(x, l), b);
    }
  }

  lemma OnlyTogether(params: seq<Parameter>, sts: seq<Statement>, a: string, b: string)
    requires Shared(params, sts, a, b)
    ensures (exists x :: Only(params, sts, a, x)) && (exists x :: Only(params, sts, b, x))
            <==> exists x :: Only(params, sts, a, x) && Only(params, sts, b, x)
  {
    hide MayHold;
    if x, y :| Only(params, sts, a, x) && Only(params, sts, b, y) {
      assert x == y;
    }
  }
}
