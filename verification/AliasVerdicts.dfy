/** What the points-to map means: where its members come from, and what its
    verdicts say about every run of the statements it was built from. */
module AliasVerdicts {

  import opened Alias
  import opened Collections
  import opened Paths

  ghost function Analyzed(params: seq<Parameter>, sts: seq<Statement>): PointsTo
  {
    Passes(Seed(params), sts, |sts| + 1)
  }

  lemma AnalyzedShape(params: seq<Parameter>, sts: seq<Statement>)
    ensures var m := Analyzed(params, sts);
      && Saturated(m, sts) && WellGraded(m) && m.Keys == Seed(params).Keys + TrackedBy(sts)
  {
    BoundSuffices(params, sts);
    SeedGraded(params);
    PassesGraded(Seed(params), sts, |sts| + 1);
    PassesKeys(Seed(params), sts, |sts| + 1);
  }

  // ----- Where pointees come from -----

  /** The statement copies one pointer into another. */
  predicate IsCopy(st: Statement)
  {
    Writes(st).Some? && Writes(st).value.1.Name?
    && !Writes(st).value.1.reference.isFunction && !Writes(st).value.1.reference.isArray
  }

  function CopyArc(st: Statement): (string, string)
    requires IsCopy(st)
  {
    (Writes(st).value.1.reference.name, Writes(st).value.0)
  }

  ghost function CopyArcs(sts: seq<Statement>): set<(string, string)>
  {
    set st | st in sts && IsCopy(st) :: CopyArc(st)
  }

  /** Statement `i` produces the origin itself: it names it, or it copies from
      a name that nothing before it, and no parameter, has tracked. */
  ghost predicate Introduces(params: seq<Parameter>, sts: seq<Statement>, i: nat, o: Origin)
    requires i < |sts|
  {
    && Writes(sts[i]).Some?
    && Offers(Writes(sts[i]).value.1, o, {}, Seed(params).Keys + TrackedBy(sts[..i]))
  }

  ghost function Roots(params: seq<Parameter>, sts: seq<Statement>, o: Origin): set<string>
  {
    (if o == Unknown then Seed(params).Keys else {}) +
    (set i | 0 <= i < |sts| && Introduces(params, sts, i, o) :: Writes(sts[i]).value.0)
  }

  /** The name is a root of the origin or reached from one through copies. */
  ghost predicate Derived(params: seq<Parameter>, sts: seq<Statement>, o: Origin, d: string)
  {
    exists e :: e in Roots(params, sts, o) && Reaches(CopyArcs(sts), e, d)
  }

  ghost predicate AllDerived(params: seq<Parameter>, sts: seq<Statement>, m: PointsTo, o: Origin)
  {
    forall d :: d in Holders(m, o) ==> Derived(params, sts, o, d)
  }

  lemma {:induction false} SeedHolders(params: seq<Parameter>, o: Origin)
    ensures Holders(Seed(params), o) == if o == Unknown then Seed(params).Keys else {}
  {
    if params != [] {
      var m, p := Seed(params[..|params| - 1]), Last(params);
      SeedHolders(params[..|params| - 1], o);
      if p.isPointer && p.name != "" {
        assert Origins(Get(m, p.name) + {UNKNOWN_POINTEE}) == Origins(Get(m, p.name)) + {Unknown};
      }
    }
  }

  lemma RootDerived(params: seq<Parameter>, sts: seq<Statement>, o: Origin, d: string)
    requires d in Roots(params, sts, o)
    ensures Derived(params, sts, o, d)
  {
    ReachesSelf(CopyArcs(sts), d);
  }

  lemma HandleDerived(params: seq<Parameter>, sts: seq<Statement>, i: nat, m: PointsTo, o: Origin)
    requires i < |sts| && AllDerived(params, sts, m, o)
    requires Seed(params).Keys + TrackedBy(sts[..i]) <= m.Keys
    ensures AllDerived(params, sts, Handle(m, sts[i]), o)
  {
    hide Handle, Holders, Seed, TrackedBy;
    HandleHolders(m, sts[i], o);
    var w := Writes(sts[i]);
    if w.Some? && Offers(w.value.1, o, Holders(m, o), m.Keys) {
      if Introduces(params, sts, i, o) {
        RootDerived(params, sts, o, w.value.0);
      } else {
        CopyDerived(params, sts, sts[i], o);
      }
    }
  }

  lemma CopyDerived(params: seq<Parameter>, sts: seq<Statement>, st: Statement, o: Origin)
    requires st in sts && IsCopy(st) && Derived(params, sts, o, CopyArc(st).0)
    ensures Derived(params, sts, o, CopyArc(st).1)
  {
    hide Roots;
    var arcs := CopyArcs(sts);
    var e :| e in Roots(params, sts, o) && Reaches(arcs, e, CopyArc(st).0);
    assert CopyArc(st) in arcs;
    ReachesArc(arcs, CopyArc(st).0, CopyArc(st).1);
    ReachesTransitive(arcs, e, CopyArc(st).0, CopyArc(st).1);
  }

  lemma {:induction false} AfterDerived(params: seq<Parameter>, sts: seq<Statement>, m: PointsTo, k: nat, o: Origin)
    requires k <= |sts| && WellGraded(m) && AllDerived(params, sts, m, o) && Seed(params).Keys <= m.Keys
    ensures AllDerived(params, sts, After(m, sts, k), o)
  {
    hide Handle, Seed, AllDerived, WellGraded, TrackedBy;
    if k > 0 {
      AfterDerived(params, sts, m, k - 1, o);
      AfterKeys(m, sts, k - 1);
      HandleDerived(params, sts, k - 1, After(m, sts, k - 1), o);
    }
  }

  lemma {:induction false} PassesDerived(params: seq<Parameter>, sts: seq<Statement>, k: nat, o: Origin)
    ensures AllDerived(params, sts, Passes(Seed(params), sts, k), o)
  {
    var m := Seed(params);
    if k == 0 {
      SeedHolders(params, o);
      forall d | d in Holders(m, o)
        ensures Derived(params, sts, o, d)
      {
        RootDerived(params, sts, o, d);
      }
    } else {
      PassesDerived(params, sts, k - 1, o);
      SeedGraded(params);
      PassesGraded(m, sts, k - 1);
      if k > 1 {
        PassesKeys(m, sts, k - 1);
      }
      AfterDerived(params, sts, Passes(m, sts, k - 1), |sts|, o);
    }
  }

  lemma {:induction false} PassesGrow(m: PointsTo, sts: seq<Statement>, k: nat, o: Origin)
    requires k > 0
    ensures Holders(After(m, sts, |sts|), o) <= Holders(Passes(m, sts, k), o)
  {
    hide Holders, After;
    if k > 1 {
      PassesGrow(m, sts, k - 1, o);
      AfterStart(Passes(m, sts, k - 1), sts);
      HoldersGrow(Passes(m, sts, k - 1), sts, 0, |sts|, o);
    } else {
      assert Passes(m, sts, 0) == m;
    }
  }

  lemma AfterStart(m: PointsTo, sts: seq<Statement>)
    ensures After(m, sts, 0) == m
  {
  }

  lemma RootsHold(params: seq<Parameter>, sts: seq<Statement>, o: Origin)
    ensures Roots(params, sts, o) <= Holders(Analyzed(params, sts), o)
  {
    hide Handle, Holders, After, Seed, TrackedBy;
    var m := Seed(params);
    PassesGrow(m, sts, |sts| + 1, o);
    SeedHolders(params, o);
    SeedGraded(params);
    AfterStart(m, sts);
    HoldersGrow(m, sts, 0, |sts|, o);
    forall i | 0 <= i < |sts| && Introduces(params, sts, i, o)
      ensures Writes(sts[i]).value.0 in Holders(Analyzed(params, sts), o)
    {
      AfterStep(m, sts, i);
      AfterKeys(m, sts, i);
      HandleHolders(After(m, sts, i), sts[i], o);
      HoldersGrow(m, sts, i + 1, |sts|, o);
    }
  }

  /** In a closed map, copies carry every origin along. */
  lemma CopiesClosed(m: PointsTo, sts: seq<Statement>, o: Origin)
    requires Saturated(m, sts)
    ensures Closed(CopyArcs(sts), Holders(m, o))
  {
    hide Handle;
    forall u, v | (u, v) in CopyArcs(sts) && u in Holders(m, o)
      ensures v in Holders(m, o)
    {
      var st :| st in sts && IsCopy(st) && CopyArc(st) == (u, v);
      assert ClosedUnder(m, st);
      HandleHolders(m, st, o);
    }
  }

  /** The passes compute exactly this: a name may hold an origin iff it is a
      root of the origin or is reached from one by copies. */
  lemma PointsToIsExact(params: seq<Parameter>, sts: seq<Statement>, o: Origin, d: string)
    ensures d in Holders(Analyzed(params, sts), o) <==> Derived(params, sts, o, d)
  {
    hide Holders, Passes, Roots, CopyArcs, Saturated, WellGraded;
    var m := Analyzed(params, sts);
    PassesDerived(params, sts, |sts| + 1, o);
    if Derived(params, sts, o, d) {
      var e :| e in Roots(params, sts, o) && Reaches(CopyArcs(sts), e, d);
      RootsHold(params, sts, o);
      BoundSuffices(params, sts);
      CopiesClosed(m, sts, o);
      ClosedContainsReachable(CopyArcs(sts), Holders(m, o), e, d);
    }
  }

  // ----- Runs -----

  /** A named object, a block one call returned, or anything else. */
  datatype Address = Place(name: string) | Block(callee: string, id: nat) | Elsewhere(id: nat)

  /** The addresses held; a name without one is unset or null. */
  type Store = map<string, Address>

  /** The value an expression may give; `None` is no address at all. */
  ghost predicate Evaluates(rhs: Rhs, s: Store, v: Option<Address>)
  {
    match rhs
    case AddressOf(operand) =>
      if operand.Some? && operand.value.name != "" then v == Some(Place(operand.value.name)) else v.Some?
    case Name(r) =>
      if r.isFunction || r.isArray then v == if r.name == "" then None else Some(Place(r.name))
      else v == if r.name in s then Some(s[r.name]) else None
    case Call(callee) => v.Some? && v.value.Block? && v.value.callee == callee
    case Other => v.None?
  }

  function Assigned(s: Store, d: string, v: Option<Address>): Store
  {
    if v.Some? then s[d := v.value] else s - {d}
  }

  /** A store through a pointer changes the variable it points to, if that has a name. */
  ghost predicate Step(s: Store, st: Statement, t: Store)
  {
    if st.StoreThrough? then
      if st.pointer in s && s[st.pointer].Place? then
        exists v :: Evaluates(st.rhs, s, v) && t == Assigned(s, s[st.pointer].name, v)
      else t == s
    else
      var w := Writes(st);
      if w.None? then t == s else exists v :: Evaluates(w.value.1, s, v) && t == Assigned(s, w.value.0, v)
  }

  ghost predicate Moves(sts: seq<Statement>, s: Store, t: Store)
  {
    exists st :: st in sts && Step(s, st, t)
  }

  /** The names that the function declares itself. */
  ghost function Declared(sts: seq<Statement>): set<string>
  {
    set st | st in sts && st.VarDecl? :: st.name
  }

  /** At the start a name that the function declares holds nothing; a pointer
      parameter and every name from outside may hold any address. */
  ghost predicate Start(params: seq<Parameter>, sts: seq<Statement>, s: Store)
  {
    s.Keys * Declared(sts) <= Seed(params).Keys
  }

  /** The statements in any order, each any number of times. */
  ghost predicate IsRun(params: seq<Parameter>, sts: seq<Statement>, run: seq<Store>)
  {
    && |run| > 0
    && Start(params, sts, run[0])
    && forall i :: 0 < i < |run| ==> Moves(sts, run[i - 1], run[i])
  }

  ghost predicate Stands(o: Origin, a: Address)
  {
    match o
    case Named(name, _) => a == Place(name)
    case Heap(callee) => a.Block? && a.callee == callee
    case Unknown => true
  }

  ghost predicate Covers(s: set<Pointee>, a: Address)
  {
    exists p :: p in s && Stands(p.origin, a)
  }

  // ----- What the map covers -----

  /** The names from outside that the function assigns: the map knows what it
      assigns to them, and not what they held before. */
  ghost predicate Outside(params: seq<Parameter>, sts: seq<Statement>, d: string)
  {
    d in TrackedBy(sts) && d !in Declared(sts) && d !in Seed(params)
  }

  /** The names `loose` are all that the map may miss an address of: those from
      outside, those that a store of an address through a pointer may change,
      and whatever is copied from one of them. */
  ghost predicate MissesOnly(params: seq<Parameter>, sts: seq<Statement>, loose: iset<string>)
  {
    && (forall d :: Outside(params, sts, d) ==> d in loose)
    && (forall u, v :: (u, v) in CopyArcs(sts) && u in loose ==> v in loose)
    && (forall st, x :: st in sts && st.StoreThrough? && Yields(st.rhs) ==>
          MayPointTo(Analyzed(params, sts), loose, st.pointer, x) ==> x in loose)
  }

  ghost predicate MayPointTo(m: PointsTo, loose: iset<string>, p: string, x: string)
  {
    p in loose || p !in m || Covers(m[p], Place(x))
  }

  ghost predicate CoversStore(m: PointsTo, s: Store, loose: iset<string>)
  {
    forall d :: d in s && d in m && d !in loose ==> Covers(m[d], s[d])
  }

  lemma ValueCovered(m: PointsTo, s: Store, rhs: Rhs, v: Option<Address>, loose: iset<string>)
    requires CoversStore(m, s, loose) && Evaluates(rhs, s, v) && v.Some?
    requires rhs.Name? && !rhs.reference.isFunction && !rhs.reference.isArray ==> rhs.reference.name !in loose
    ensures Covers(Resolve(m, rhs), v.value)
  {
    var c := Resolve(m, rhs);
    if rhs.Name? && !rhs.reference.isFunction && !rhs.reference.isArray && rhs.reference.name in m {
      var t := m[rhs.reference.name];
      assert Covers(t, v.value);
      var p :| p in t && Stands(p.origin, v.value);
      assert Downgraded(p, |t| > 1) in c;
    } else {
      var p :| p in c;
      assert Stands(p.origin, v.value);
    }
  }

  lemma StepCovered(params: seq<Parameter>, sts: seq<Statement>, s: Store, st: Statement, t: Store, loose: iset<string>)
    requires MissesOnly(params, sts, loose) && st in sts && Step(s, st, t)
    requires CoversStore(Analyzed(params, sts), s, loose)
    ensures CoversStore(Analyzed(params, sts), t, loose)
  {
    hide Evaluates, Covers, Resolve, Passes, WellGraded, Outside;
    var m := Analyzed(params, sts);
    var w := Writes(st);
    if st.StoreThrough? {
      StoreCovered(params, sts, s, st, t, loose);
    } else if w.Some? {
      var d, rhs := w.value.0, w.value.1;
      var v :| Evaluates(rhs, s, v) && t == Assigned(s, d, v);
      if v.Some? && d !in loose {
        if IsCopy(st) {
          assert CopyArc(st) in CopyArcs(sts) && CopyArc(st) == (rhs.reference.name, d);
        }
        ValueCovered(m, s, rhs, v, loose);
        AnalyzedShape(params, sts);
        assert ClosedUnder(m, st);
        CoveredByAdded(m, d, Resolve(m, rhs), v.value);
      }
    }
  }

  lemma StoreCovered(params: seq<Parameter>, sts: seq<Statement>, s: Store, st: Statement, t: Store, loose: iset<string>)
    requires MissesOnly(params, sts, loose) && st in sts && Step(s, st, t) && st.StoreThrough?
    requires CoversStore(Analyzed(params, sts), s, loose)
    ensures CoversStore(Analyzed(params, sts), t, loose)
  {
    hide Covers, Passes, Outside;
    if st.pointer in s && s[st.pointer].Place? {
      var x := s[st.pointer].name;
      var v :| Evaluates(st.rhs, s, v) && t == Assigned(s, x, v);
      if v.Some? {
        assert Yields(st.rhs);
        assert MayPointTo(Analyzed(params, sts), loose, st.pointer, x);
      }
    }
  }

  lemma CoveredByAdded(m: PointsTo, d: string, more: set<Pointee>, a: Address)
    requires Add(m, d, more) == m && Covers(more, a)
    ensures d in m && Covers(m[d], a)
  {
    var p :| p in more && Stands(p.origin, a);
    assert more <= Add(m, d, more)[d];
  }

  lemma {:induction false} RunCovered(params: seq<Parameter>, sts: seq<Statement>, run: seq<Store>, k: nat, loose: iset<string>)
    requires IsRun(params, sts, run) && k < |run| && MissesOnly(params, sts, loose)
    ensures CoversStore(Analyzed(params, sts), run[k], loose)
  {
    hide Covers, Saturated, Passes, WellGraded, TrackedBy, Step, MayPointTo;
    var m := Analyzed(params, sts);
    if k == 0 {
      AnalyzedShape(params, sts);
      forall d | d in run[0] && d in m && d !in loose
        ensures Covers(m[d], run[0][d])
      {
        assert !Outside(params, sts, d);
        assert d in Seed(params).Keys;
        ParameterCovered(params, sts, d, run[0][d]);
      }
    } else {
      RunCovered(params, sts, run, k - 1, loose);
      assert Moves(sts, run[k - 1], run[k]);
      var st :| st in sts && Step(run[k - 1], st, run[k]);
      StepCovered(params, sts, run[k - 1], st, run[k], loose);
    }
  }

  lemma ParameterCovered(params: seq<Parameter>, sts: seq<Statement>, d: string, a: Address)
    requires d in Seed(params).Keys
    ensures d in Analyzed(params, sts) && Covers(Analyzed(params, sts)[d], a)
  {
    hide Seed, Passes;
    RootsHold(params, sts, Unknown);
    var m: PointsTo := Analyzed(params, sts);
    assert d in Holders(m, Unknown);
    var p: Pointee :| p in m[d] && p.origin == Unknown;
    assert Stands(p.origin, a);
  }

  // ----- Verdicts -----

  /** Equal `target` strings. */
  predicate SameTarget(a: Origin, b: Origin)
  {
    match a
    case Named(name, _) => b.Named? && b.name == name
    case _ => a == b
  }

  predicate HasUnknown(s: set<Pointee>)
  {
    exists p :: p in s && p.origin == Unknown
  }

  predicate IsDefinite(s: set<Pointee>)
  {
    |s| == 1 && forall p :: p in s ==> p.confidence == Definite
  }

  function MayAlias(m: PointsTo, a: string, b: string): (bool, Confidence)
  {
    var s, t := Get(m, a), Get(m, b);
    if s == {} || t == {} then (false, NotKnown)
    else if HasUnknown(s) || HasUnknown(t) then (true, NotKnown)
    else if !exists p, q :: p in s && q in t && SameTarget(p.origin, q.origin) then (false, Definite)
    else (true, if IsDefinite(s) && IsDefinite(t) then Definite else Possible)
  }

  lemma MeetingIsSeen(m: PointsTo, a: string, b: string, v: Address)
    requires a in m && b in m && Covers(m[a], v) && Covers(m[b], v)
    ensures MayAlias(m, a, b).0
  {
    var p :| p in m[a] && Stands(p.origin, v);
    var q :| q in m[b] && Stands(q.origin, v);
    if p.origin != Unknown && q.origin != Unknown {
      assert SameTarget(p.origin, q.origin);
    }
  }

  lemma DefiniteMeans(m: PointsTo, a: string, b: string, u: Address, v: Address)
    requires WellGraded(m) && MayAlias(m, a, b) == (true, Definite)
    requires Covers(m[a], u) && Covers(m[b], v)
    ensures u == v
  {
    var p, q :| p in m[a] && q in m[b] && SameTarget(p.origin, q.origin);
    OnlyMember(m[a], p);
    OnlyMember(m[b], q);
    assert p.origin.Named? && q.origin.Named?;
  }

  lemma OnlyMember<T>(s: set<T>, p: T)
    requires |s| == 1 && p in s
    ensures s == {p}
  {
    assert |s - {p}| == 0;
  }

  /** Over every run: tracked pointers that ever hold the same address, at the
      same time or not, are reported as possible aliases, unless the map may
      miss an address of one of them. */
  lemma AliasesAreSeen(params: seq<Parameter>, sts: seq<Statement>, loose: iset<string>,
                       run: seq<Store>, i: nat, j: nat, a: string, b: string)
    requires MissesOnly(params, sts, loose) && a !in loose && b !in loose
    requires IsRun(params, sts, run) && i < |run| && j < |run|
    requires a in run[i] && b in run[j] && run[i][a] == run[j][b]
    requires var m := Analyzed(params, sts); a in m && b in m
    ensures MayAlias(Analyzed(params, sts), a, b).0
  {
    hide Passes, IsRun, MissesOnly;
    RunCovered(params, sts, run, i, loose);
    RunCovered(params, sts, run, j, loose);
    MeetingIsSeen(Analyzed(params, sts), a, b, run[i][a]);
  }

  /** Over every run: after a definite yes the pointers are equal whenever both
      are set, and after a definite no they never are, unless the map may miss an
      address of one of them. */
  lemma DefiniteVerdicts(params: seq<Parameter>, sts: seq<Statement>, loose: iset<string>,
                         run: seq<Store>, i: nat, j: nat, a: string, b: string)
    requires MissesOnly(params, sts, loose) && a !in loose && b !in loose
    requires IsRun(params, sts, run) && i < |run| && j < |run| && a in run[i] && b in run[j]
    ensures MayAlias(Analyzed(params, sts), a, b) == (true, Definite) ==> run[i][a] == run[j][b]
    ensures MayAlias(Analyzed(params, sts), a, b) == (false, Definite) ==> run[i][a] != run[j][b]
  {
    hide Passes, IsRun, TrackedBy, Saturated, MissesOnly;
    var m := Analyzed(params, sts);
    if a in m && b in m {
      AnalyzedShape(params, sts);
      RunCovered(params, sts, run, i, loose);
      RunCovered(params, sts, run, j, loose);
      if MayAlias(m, a, b) == (true, Definite) {
        DefiniteMeans(m, a, b, run[i][a], run[j][b]);
      }
      if run[i][a] == run[j][b] {
        MeetingIsSeen(m, a, b, run[i][a]);
      }
    }
  }

  // ----- When a verdict is wrong -----

  /** The name may hold any address at the start: a pointer parameter, or a name
      that the function does not declare. */
  ghost predicate FreeAtStart(params: seq<Parameter>, sts: seq<Statement>, e: string)
  {
    e in Seed(params) || e !in Declared(sts)
  }

  /** A statement writes an address to the name that is not copied. */
  predicate GivesAddress(st: Statement, e: string)
  {
    Writes(st).Some? && Writes(st).value.0 == e && Yields(Writes(st).value.1) && !IsCopy(st)
  }

  ghost predicate Source(params: seq<Parameter>, sts: seq<Statement>, e: string)
  {
    FreeAtStart(params, sts, e) || exists st :: st in sts && GivesAddress(st, e)
  }

  /** Copies lead to the name from one that may hold any address at the start. */
  ghost predicate Free(params: seq<Parameter>, sts: seq<Statement>, d: string)
  {
    exists e :: FreeAtStart(params, sts, e) && Reaches(CopyArcs(sts), e, d)
  }

  /** Copies lead to the name from one from outside that the function assigns. */
  ghost predicate Stray(params: seq<Parameter>, sts: seq<Statement>, d: string)
  {
    exists e :: Outside(params, sts, e) && Reaches(CopyArcs(sts), e, d)
  }

  ghost function Strays(params: seq<Parameter>, sts: seq<Statement>): iset<string>
  {
    iset d | Stray(params, sts, d)
  }

  /** The name can hold an address: copies lead to it from a source of one. */
  ghost predicate Settable(params: seq<Parameter>, sts: seq<Statement>, b: string)
  {
    exists e :: Source(params, sts, e) && Reaches(CopyArcs(sts), e, b)
  }

  /** Whatever is stored through a pointer, it is no address. */
  ghost predicate NoAddressStored(sts: seq<Statement>)
  {
    forall st :: st in sts && st.StoreThrough? ==> !Yields(st.rhs)
  }

  ghost predicate Meet(s: Store, a: string, b: string)
  {
    a in s && b in s && s[a] == s[b]
  }

  /** In some run, both names hold one address at the same time. */
  ghost predicate CanMeet(params: seq<Parameter>, sts: seq<Statement>, a: string, b: string)
  {
    exists run, i: nat :: IsRun(params, sts, run) && i < |run| && Meet(run[i], a, b)
  }

  /** Without stores of addresses through pointers, the map misses addresses of
      stray names alone. */
  lemma MissesOnlyStrays(params: seq<Parameter>, sts: seq<Statement>)
    requires NoAddressStored(sts)
    ensures MissesOnly(params, sts, Strays(params, sts))
  {
    hide Passes, Outside;
    var loose := Strays(params, sts);
    forall d | Outside(params, sts, d)
      ensures d in loose
    {
      ReachesSelf(CopyArcs(sts), d);
    }
    forall u, v | (u, v) in CopyArcs(sts) && u in loose
      ensures v in loose
    {
      var e :| Outside(params, sts, e) && Reaches(CopyArcs(sts), e, u);
      ReachesArc(CopyArcs(sts), u, v);
      ReachesTransitive(CopyArcs(sts), e, u, v);
    }
  }

  lemma SettableSelf(params: seq<Parameter>, sts: seq<Statement>, d: string)
    requires Source(params, sts, d)
    ensures Settable(params, sts, d)
  {
    ReachesSelf(CopyArcs(sts), d);
  }

  lemma SettableByCopy(params: seq<Parameter>, sts: seq<Statement>, st: Statement)
    requires st in sts && IsCopy(st) && Settable(params, sts, CopyArc(st).0)
    ensures Settable(params, sts, CopyArc(st).1)
  {
    hide Source;
    var e :| Source(params, sts, e) && Reaches(CopyArcs(sts), e, CopyArc(st).0);
    assert CopyArc(st) in CopyArcs(sts);
    ReachesArc(CopyArcs(sts), CopyArc(st).0, CopyArc(st).1);
    ReachesTransitive(CopyArcs(sts), e, CopyArc(st).0, CopyArc(st).1);
  }

  /** The names that may hold an address, and what is known of them. */
  ghost predicate HeldNames(params: seq<Parameter>, sts: seq<Statement>, s: Store)
  {
    forall d :: d in s ==> Settable(params, sts, d) && (d in Analyzed(params, sts) || FreeAtStart(params, sts, d))
  }

  lemma StepKeepsNames(params: seq<Parameter>, sts: seq<Statement>, s: Store, st: Statement, t: Store)
    requires NoAddressStored(sts) && st in sts && Step(s, st, t) && HeldNames(params, sts, s)
    ensures HeldNames(params, sts, t)
  {
    hide Settable, Passes, Saturated, WellGraded, Seed;
    var w := Writes(st);
    if w.Some? && w.value.0 in t {
      var v :| Evaluates(w.value.1, s, v) && t == Assigned(s, w.value.0, v);
      if IsCopy(st) {
        SettableByCopy(params, sts, st);
      } else {
        assert GivesAddress(st, w.value.0);
        SettableSelf(params, sts, w.value.0);
      }
      AnalyzedShape(params, sts);
      assert Tracks(st) == Some(w.value.0);
      assert w.value.0 in TrackedBy(sts);
    }
  }

  /** In every run, only settable names ever hold an address. */
  lemma {:induction false} RunKeepsNames(params: seq<Parameter>, sts: seq<Statement>, run: seq<Store>, k: nat)
    requires NoAddressStored(sts) && IsRun(params, sts, run) && k < |run|
    ensures HeldNames(params, sts, run[k])
  {
    hide Step, Settable, Analyzed, NoAddressStored;
    if k == 0 {
      forall d | d in run[0]
        ensures Settable(params, sts, d) && FreeAtStart(params, sts, d)
      {
        SettableSelf(params, sts, d);
      }
    } else {
      RunKeepsNames(params, sts, run, k - 1);
      assert Moves(sts, run[k - 1], run[k]);
      var st :| st in sts && Step(run[k - 1], st, run[k]);
      StepKeepsNames(params, sts, run[k - 1], st, run[k]);
    }
  }

  lemma RunOneMore(params: seq<Parameter>, sts: seq<Statement>, run: seq<Store>, st: Statement, next: Store)
    requires IsRun(params, sts, run) && st in sts && Step(Last(run), st, next)
    ensures IsRun(params, sts, run + [next])
  {
    hide Step, Start;
    var longer := run + [next];
    forall i | 0 < i < |longer|
      ensures Moves(sts, longer[i - 1], longer[i])
    {
      if i < |run| {
        assert Moves(sts, run[i - 1], run[i]);
      }
    }
  }

  /** Every name that holds an address holds this one. */
  ghost predicate Uniform(s: Store, v: Address)
  {
    forall d :: d in s ==> s[d] == v
  }

  /** Copies carry an address along a chain of names; where all names hold the
      same one, they go on doing so, and none is lost. */
  lemma {:induction false} CarryAlong(params: seq<Parameter>, sts: seq<Statement>, run: seq<Store>, p: seq<string>, v: Address)
    returns (longer: seq<Store>)
    requires IsRun(params, sts, run) && IsWalk(CopyArcs(sts), p) && p[0] in Last(run) && Last(run)[p[0]] == v
    ensures IsRun(params, sts, longer) && run <= longer
    ensures Last(run).Keys <= Last(longer).Keys && Last(p) in Last(longer) && Last(longer)[Last(p)] == v
    ensures Uniform(Last(run), v) ==> Uniform(Last(longer), v)
    decreases |p|
  {
    if |p| == 1 {
      longer := run;
    } else {
      hide Start;
      assert (p[0], p[1]) in CopyArcs(sts);
      var st :| st in sts && IsCopy(st) && CopyArc(st) == (p[0], p[1]);
      var s := Last(run);
      var next := s[p[1] := v];
      assert Evaluates(Writes(st).value.1, s, Some(v)) && next == Assigned(s, p[1], Some(v));
      assert Step(s, st, next);
      RunOneMore(params, sts, run, st, next);
      WalkBack(CopyArcs(sts), p, 1);
      longer := CarryAlong(params, sts, run + [next], p[1..], v);
    }
  }

  lemma SomeAddress(rhs: Rhs) returns (v: Address)
    requires Yields(rhs) && (rhs.Name? ==> rhs.reference.isFunction || rhs.reference.isArray)
    ensures forall s :: Evaluates(rhs, s, Some(v))
    ensures rhs.AddressOf? && rhs.operand.Some? && rhs.operand.value.name != "" ==> v == Place(rhs.operand.value.name)
    ensures rhs.Name? ==> v == Place(rhs.reference.name)
  {
    match rhs
    case AddressOf(operand) =>
      v := if operand.Some? && operand.value.name != "" then Place(operand.value.name) else Elsewhere(0);
    case Name(r) => v := Place(r.name);
    case Call(callee) => v := Block(callee, 0);
  }

  /** A run after which a name that is free at the start and a source of an
      address hold the same one, and no name holds another. */
  lemma StartTogether(params: seq<Parameter>, sts: seq<Statement>, e: string, f: string)
    returns (run: seq<Store>, v: Address)
    requires FreeAtStart(params, sts, e) && Source(params, sts, f)
    ensures IsRun(params, sts, run) && Uniform(Last(run), v) && e in Last(run) && f in Last(run)
  {
    hide Seed;
    if FreeAtStart(params, sts, f) {
      v := Elsewhere(0);
      run := [map[e := v, f := v]];
    } else {
      var st :| st in sts && GivesAddress(st, f);
      v := SomeAddress(Writes(st).value.1);
      var s: Store := map[e := v];
      assert Evaluates(Writes(st).value.1, s, Some(v)) && s[f := v] == Assigned(s, f, Some(v));
      assert Step(s, st, s[f := v]);
      assert IsRun(params, sts, [s]) && Last([s]) == s;
      RunOneMore(params, sts, [s], st, s[f := v]);
      run := [s] + [s[f := v]];
    }
  }

  /** A name that may hold anything meets every name that may hold something. */
  lemma FreeMeets(params: seq<Parameter>, sts: seq<Statement>, a: string, b: string)
    requires Free(params, sts, a) && Settable(params, sts, b)
    ensures CanMeet(params, sts, a, b)
  {
    hide IsRun, FreeAtStart, Source;
    var e :| FreeAtStart(params, sts, e) && Reaches(CopyArcs(sts), e, a);
    var f :| Source(params, sts, f) && Reaches(CopyArcs(sts), f, b);
    var p :| WalkFromTo(CopyArcs(sts), p, e, a);
    var q :| WalkFromTo(CopyArcs(sts), q, f, b);
    var run, v := StartTogether(params, sts, e, f);
    RunNotEmpty(params, sts, run);
    var longer := CarryAlong(params, sts, run, p, v);
    RunNotEmpty(params, sts, longer);
    var last := CarryAlong(params, sts, longer, q, v);
    RunNotEmpty(params, sts, last);
    assert Meet(last[|last| - 1], a, b);
  }

  lemma RunNotEmpty(params: seq<Parameter>, sts: seq<Statement>, run: seq<Store>)
    requires IsRun(params, sts, run)
    ensures |run| > 0
  {
  }

  lemma MeetsBothWays(params: seq<Parameter>, sts: seq<Statement>, a: string, b: string)
    ensures CanMeet(params, sts, a, b) <==> CanMeet(params, sts, b, a)
  {
    hide IsRun;
    forall x, y | CanMeet(params, sts, x, y)
      ensures CanMeet(params, sts, y, x)
    {
      var run, i: nat :| IsRun(params, sts, run) && i < |run| && Meet(run[i], x, y);
      assert Meet(run[i], y, x);
    }
  }

  lemma StrayIsFree(params: seq<Parameter>, sts: seq<Statement>, d: string)
    requires Stray(params, sts, d)
    ensures Free(params, sts, d)
  {
    hide Seed, TrackedBy;
    var e :| Outside(params, sts, e) && Reaches(CopyArcs(sts), e, d);
    assert FreeAtStart(params, sts, e);
  }

  /** The verdict sees every meeting of two names exactly when it is yes, or one of
      them can never hold an address, or neither may hold any address from the
      start on. */
  lemma MeetingsAreSeenIff(params: seq<Parameter>, sts: seq<Statement>, a: string, b: string)
    requires NoAddressStored(sts)
    ensures var m := Analyzed(params, sts);
      (CanMeet(params, sts, a, b) ==> MayAlias(m, a, b).0) <==>
      || MayAlias(m, a, b).0
      || !Settable(params, sts, a) || !Settable(params, sts, b)
      || (!Free(params, sts, a) && !Free(params, sts, b))
  {
    hide Passes, IsRun, Settable, Free, Stray, MayAlias, MissesOnly, NoAddressStored, FreeAtStart;
    if CanMeet(params, sts, a, b) {
      var run, i: nat :| IsRun(params, sts, run) && i < |run| && Meet(run[i], a, b);
      RunKeepsNames(params, sts, run, i);
      if !Free(params, sts, a) && !Free(params, sts, b) {
        NotFree(params, sts, a);
        NotFree(params, sts, b);
        MissesOnlyStrays(params, sts);
        AliasesAreSeen(params, sts, Strays(params, sts), run, i, i, a, b);
      }
    } else if Settable(params, sts, a) && Settable(params, sts, b) {
      if Free(params, sts, a) {
        FreeMeets(params, sts, a, b);
      } else if Free(params, sts, b) {
        FreeMeets(params, sts, b, a);
        MeetsBothWays(params, sts, a, b);
      }
    }
  }

  lemma NotFree(params: seq<Parameter>, sts: seq<Statement>, d: string)
    requires !Free(params, sts, d)
    ensures !FreeAtStart(params, sts, d) && !Stray(params, sts, d)
  {
    hide FreeAtStart;
    ReachesSelf(CopyArcs(sts), d);
    if Stray(params, sts, d) {
      StrayIsFree(params, sts, d);
    }
  }

  // ----- Definite verdicts -----

  /** Over all runs, the two pointers are equal whenever both are set (`equal`),
      or never hold the same address. */
  ghost predicate HoldsOverRuns(params: seq<Parameter>, sts: seq<Statement>, a: string, b: string, equal: bool)
  {
    forall run, i: nat, j: nat :: IsRun(params, sts, run) && i < |run| && j < |run| && a in run[i] && b in run[j] ==>
      (equal <==> run[i][a] == run[j][b])
  }

  /** The map knows where a tracked name gets an origin other than an unknown one:
      a statement gives it, and copies carry it on. */
  lemma GivenBy(params: seq<Parameter>, sts: seq<Statement>, o: Origin, d: string) returns (e: string, v: Address)
    requires o != Unknown && Derived(params, sts, o, d)
    ensures Reaches(CopyArcs(sts), e, d) && (o.Named? ==> v == Place(o.name))
    ensures exists st :: st in sts && GivesAddress(st, e) && forall s :: Evaluates(Writes(st).value.1, s, Some(v))
  {
    hide Seed, TrackedBy, CopyArcs;
    e :| e in Roots(params, sts, o) && Reaches(CopyArcs(sts), e, d);
    var i :| 0 <= i < |sts| && Introduces(params, sts, i, o) && Writes(sts[i]).value.0 == e;
    assert sts[i] in sts && GivesAddress(sts[i], e);
    v := SomeAddress(Writes(sts[i]).value.1);
  }

  /** A stray name and one that a statement gives an address come to hold
      different ones. */
  lemma StrayDiffers(params: seq<Parameter>, sts: seq<Statement>, a: string, b: string, x: string, k: Kind)
    requires Stray(params, sts, a) && b in Holders(Analyzed(params, sts), Named(x, k))
    ensures !HoldsOverRuns(params, sts, a, b, true) && !HoldsOverRuns(params, sts, b, a, true)
  {
    hide Passes, Holders, Outside, Evaluates, Derived, Start;
    StrayIsFree(params, sts, a);
    var e :| FreeAtStart(params, sts, e) && Reaches(CopyArcs(sts), e, a);
    var p :| WalkFromTo(CopyArcs(sts), p, e, a);
    PointsToIsExact(params, sts, Named(x, k), b);
    var f, w := GivenBy(params, sts, Named(x, k), b);
    var st :| st in sts && GivesAddress(st, f) && forall s :: Evaluates(Writes(st).value.1, s, Some(w));
    var q :| WalkFromTo(CopyArcs(sts), q, f, b);
    var v := Elsewhere(0);
    var first := AnywhereAtFirst(params, sts, e, v);
    var run := CarryAlong(params, sts, first, p, v);
    var s := Last(run);
    assert Evaluates(Writes(st).value.1, s, Some(w)) && s[f := w] == Assigned(s, f, Some(w));
    assert Step(s, st, s[f := w]);
    RunOneMore(params, sts, run, st, s[f := w]);
    var longer := CarryAlong(params, sts, run + [s[f := w]], q, w);
    Differ(params, sts, longer, |run| - 1, |longer| - 1, a, b);
  }

  lemma AnywhereAtFirst(params: seq<Parameter>, sts: seq<Statement>, e: string, v: Address) returns (run: seq<Store>)
    requires FreeAtStart(params, sts, e)
    ensures IsRun(params, sts, run) && Last(run) == map[e := v]
  {
    run := [map[e := v]];
  }

  lemma Differ(params: seq<Parameter>, sts: seq<Statement>, run: seq<Store>, i: nat, j: nat, a: string, b: string)
    requires IsRun(params, sts, run) && i < |run| && j < |run| && a in run[i] && b in run[j] && run[i][a] != run[j][b]
    ensures !HoldsOverRuns(params, sts, a, b, true) && !HoldsOverRuns(params, sts, b, a, true)
  {
    hide IsRun;
  }

  /** A definite verdict holds over all runs exactly when no copies lead from an
      assigned name from outside to either pointer. */
  lemma DefiniteVerdictsIff(params: seq<Parameter>, sts: seq<Statement>, a: string, b: string)
    requires NoAddressStored(sts) && MayAlias(Analyzed(params, sts), a, b).1 == Definite
    ensures HoldsOverRuns(params, sts, a, b, MayAlias(Analyzed(params, sts), a, b).0) <==>
      !Stray(params, sts, a) && !Stray(params, sts, b)
  {
    hide Passes, IsRun, Stray, MissesOnly, NoAddressStored;
    var m := Analyzed(params, sts);
    if !Stray(params, sts, a) && !Stray(params, sts, b) {
      MissesOnlyStrays(params, sts);
      forall run, i: nat, j: nat | IsRun(params, sts, run) && i < |run| && j < |run| && a in run[i] && b in run[j]
        ensures MayAlias(m, a, b).0 <==> run[i][a] == run[j][b]
      {
        DefiniteVerdicts(params, sts, Strays(params, sts), run, i, j, a, b);
      }
    } else if MayAlias(m, a, b).0 {
      DefiniteYesIsWrong(params, sts, a, b);
    } else {
      DefiniteNoIsWrong(params, sts, a, b);
    }
  }

  lemma DefiniteYesIsWrong(params: seq<Parameter>, sts: seq<Statement>, a: string, b: string)
    requires MayAlias(Analyzed(params, sts), a, b) == (true, Definite)
    requires Stray(params, sts, a) || Stray(params, sts, b)
    ensures !HoldsOverRuns(params, sts, a, b, true)
  {
    hide Passes, HoldsOverRuns, Stray, WellGraded;
    var m: PointsTo := Analyzed(params, sts);
    AnalyzedShape(params, sts);
    var p: Pointee, q: Pointee :| p in m[a] && q in m[b] && SameTarget(p.origin, q.origin);
    NamedWhenDefinite(m, a, p);
    NamedWhenDefinite(m, b, q);
    if Stray(params, sts, a) {
      StrayDiffers(params, sts, a, b, q.origin.name, q.origin.kind);
    } else {
      StrayDiffers(params, sts, b, a, p.origin.name, p.origin.kind);
    }
  }

  lemma NamedWhenDefinite(m: PointsTo, d: string, p: Pointee)
    requires WellGraded(m) && d in m && p in m[d] && IsDefinite(m[d])
    ensures p.origin.Named? && d in Holders(m, p.origin)
  {
    OnlyMember(m[d], p);
  }

  lemma DefiniteNoIsWrong(params: seq<Parameter>, sts: seq<Statement>, a: string, b: string)
    requires MayAlias(Analyzed(params, sts), a, b) == (false, Definite)
    requires Stray(params, sts, a) || Stray(params, sts, b)
    ensures !HoldsOverRuns(params, sts, a, b, false)
  {
    hide Passes, IsRun, Stray, Settable, Free;
    var m: PointsTo := Analyzed(params, sts);
    KnownIsSettable(params, sts, a);
    KnownIsSettable(params, sts, b);
    if Stray(params, sts, a) {
      StrayIsFree(params, sts, a);
      FreeMeets(params, sts, a, b);
    } else {
      StrayIsFree(params, sts, b);
      FreeMeets(params, sts, b, a);
      MeetsBothWays(params, sts, a, b);
    }
    var run, i: nat :| IsRun(params, sts, run) && i < |run| && Meet(run[i], a, b);
  }

  lemma KnownIsSettable(params: seq<Parameter>, sts: seq<Statement>, d: string)
    requires var m := Analyzed(params, sts); d in m && m[d] != {} && !HasUnknown(m[d])
    ensures Settable(params, sts, d)
  {
    hide Passes, Derived;
    var m: PointsTo := Analyzed(params, sts);
    var p: Pointee :| p in m[d];
    assert d in Holders(m, p.origin);
    PointsToIsExact(params, sts, p.origin, d);
    var e, v := GivenBy(params, sts, p.origin, d);
    assert Source(params, sts, e);
  }

  // ----- Concrete functions -----

  function Plain(name: string): Reference
  {
    Reference(name, false, false)
  }

  function To(x: string): Pointee
  {
    Pointee(Named(x, Variable), Definite)
  }

  /** Handling `d = &x`, for the first time and again. */
  lemma TakesAddress(m: PointsTo, sts: seq<Statement>, i: nat, d: string, x: string)
    requires i < |sts| && Writes(sts[i]) == Some((d, AddressOf(Some(Plain(x))))) && x != ""
    ensures d !in After(m, sts, i) ==> After(m, sts, i + 1) == After(m, sts, i)[d := {To(x)}]
    ensures d in After(m, sts, i) && After(m, sts, i)[d] == {To(x)} ==> After(m, sts, i + 1) == After(m, sts, i)
  {
    AfterStep(m, sts, i);
    assert {} + {To(x)} == {To(x)} && {To(x)} + {To(x)} == {To(x)};
  }

  lemma {:induction false} SettledPasses(sts: seq<Statement>, m: PointsTo, k: nat)
    requires k > 0 && After(map[], sts, |sts|) == m && After(m, sts, |sts|) == m
    ensures Passes(Seed([]), sts, k) == m
  {
    hide After;
    assert Passes(Seed([]), sts, 0) == map[];
    if k > 1 {
      SettledPasses(sts, m, k - 1);
    }
  }

  /** Two names with one known target each, and those differ. */
  lemma ApartForSure(m: PointsTo, a: string, b: string, x: string, y: string)
    requires a in m && b in m && m[a] == {To(x)} && m[b] == {To(y)} && x != y
    ensures MayAlias(m, a, b) == (false, Definite)
  {
    assert To(x) in m[a] && To(y) in m[b];
  }

  /** `g = &x; p = &y;` with a `g` from outside: the verdict on g and p is a
      definite no, and g may hold `&y` before its assignment. */
  lemma GlobalDefeatsDefiniteNo(sts: seq<Statement>)
    requires sts == [Assignment(Some("g"), AddressOf(Some(Plain("x")))),
                     VarDecl("p", true, Some(AddressOf(Some(Plain("y")))))]
    ensures MayAlias(Analyzed([], sts), "g", "p") == (false, Definite)
    ensures !HoldsOverRuns([], sts, "g", "p", false)
  {
    hide IsRun, Saturated, After, HoldsOverRuns, MayAlias;
    var m: PointsTo := map["g" := {To("x")}, "p" := {To("y")}];
    TakesAddress(map[], sts, 0, "g", "x");
    TakesAddress(map[], sts, 1, "p", "y");
    TakesAddress(m, sts, 0, "g", "x");
    TakesAddress(m, sts, 1, "p", "y");
    AfterStart(map[], sts);
    AfterStart(m, sts);
    SettledPasses(sts, m, 3);
    ApartForSure(m, "g", "p", "x", "y");
    assert Tracks(sts[0]) == Some("g") && sts[0] in sts;
    assert "g" in TrackedBy(sts);
    assert Outside([], sts, "g");
    ReachesSelf(CopyArcs(sts), "g");
    DefiniteNoIsWrong([], sts, "g", "p");
  }

  /** `p = &x; q = &y; pp = &p; *pp = q;` : the verdict on p and q is a definite
      no, and the store makes them equal. */
  function StoresThrough(): seq<Statement>
  {
    [VarDecl("p", true, Some(AddressOf(Some(Plain("x"))))),
     VarDecl("q", true, Some(AddressOf(Some(Plain("y"))))),
     VarDecl("pp", true, Some(AddressOf(Some(Plain("p"))))),
     StoreThrough("pp", Name(Plain("q")))]
  }

  lemma StoreThroughDefeatsDefiniteNo()
    ensures MayAlias(Analyzed([], StoresThrough()), "p", "q") == (false, Definite)
    ensures !HoldsOverRuns([], StoresThrough(), "p", "q", false)
  {
    hide IsRun, Passes, MayAlias;
    var sts := StoresThrough();
    StoresThroughMap(sts);
    ApartForSure(Analyzed([], sts), "p", "q", "x", "y");
    var run := StoresThroughRun(sts);
    assert run[4]["p"] == run[4]["q"];
  }

  lemma StoresThroughMap(sts: seq<Statement>)
    requires sts == StoresThrough()
    ensures Analyzed([], sts) == map["p" := {To("x")}, "q" := {To("y")}, "pp" := {To("p")}]
  {
    hide After;
    var m: PointsTo := map["p" := {To("x")}, "q" := {To("y")}, "pp" := {To("p")}];
    StoresThroughPass(map[], sts);
    StoresThroughPass(m, sts);
    AfterStart(map[], sts);
    AfterStart(m, sts);
    SettledPasses(sts, m, 5);
  }

  lemma StoresThroughPass(m: PointsTo, sts: seq<Statement>)
    requires sts == StoresThrough()
    requires m == map[] || m == map["p" := {To("x")}, "q" := {To("y")}, "pp" := {To("p")}]
    ensures After(m, sts, 4) == map["p" := {To("x")}, "q" := {To("y")}, "pp" := {To("p")}]
  {
    hide After, To;
    AfterStart(m, sts);
    TakesAddress(m, sts, 0, "p", "x");
    TakesAddress(m, sts, 1, "q", "y");
    TakesAddress(m, sts, 2, "pp", "p");
    AfterStep(m, sts, 3);
  }

  lemma TakesAddressStep(s: Store, st: Statement, d: string, x: string)
    requires st == VarDecl(d, true, Some(AddressOf(Some(Plain(x))))) && d != "" && x != ""
    ensures Step(s, st, s[d := Place(x)])
  {
    assert Evaluates(AddressOf(Some(Plain(x))), s, Some(Place(x))) && s[d := Place(x)] == Assigned(s, d, Some(Place(x)));
  }

  lemma StoreThroughStep(s: Store, st: Statement, p: string, x: string, q: string)
    requires st == StoreThrough(p, Name(Plain(q))) && p in s && s[p] == Place(x) && q in s
    ensures Step(s, st, s[x := s[q]])
  {
    assert Evaluates(Name(Plain(q)), s, Some(s[q])) && s[x := s[q]] == Assigned(s, x, Some(s[q]));
  }

  lemma StoresThroughRun(sts: seq<Statement>) returns (run: seq<Store>)
    requires sts == StoresThrough()
    ensures IsRun([], sts, run) && |run| == 5 && "p" in run[4] && "q" in run[4] && run[4]["p"] == run[4]["q"]
  {
    hide Step;
    var s: Store := map[];
    var a := s["p" := Place("x")];
    var b := a["q" := Place("y")];
    var c := b["pp" := Place("p")];
    var d := c["p" := c["q"]];
    run := [s, a, b, c, d];
    TakesAddressStep(s, sts[0], "p", "x");
    TakesAddressStep(a, sts[1], "q", "y");
    TakesAddressStep(b, sts[2], "pp", "p");
    StoreThroughStep(c, sts[3], "pp", "p", "q");
    assert Moves(sts, s, a) && Moves(sts, a, b) && Moves(sts, b, c) && Moves(sts, c, d);
  }
}
