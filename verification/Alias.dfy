/** Points-to analysis of one function: which addresses each pointer may ever
    hold, found by passes over the pointer-producing statements. */
module Alias {

  import opened Collections
  import opened Paths

  datatype Kind = Variable | Array | Function

  /** What a pointee stands for: the `target` and `kind` of the source. */
  datatype Origin = Named(name: string, kind: Kind) | Heap(callee: string) | Unknown

  datatype Confidence = Definite | Possible | NotKnown

  datatype Pointee = Pointee(origin: Origin, confidence: Confidence)

  datatype Reference = Reference(name: string, isFunction: bool, isArray: bool)

  /** A right-hand side. `AddressOf(None)` takes the address of something that
      is not a plain name; `Other` covers every remaining kind of expression. */
  datatype Rhs = AddressOf(operand: Option<Reference>) | Name(reference: Reference) | Call(callee: string) | Other

  /** An assignment to a name, to `*pointer`, or to anything else (`None`). */
  datatype Statement =
    | VarDecl(name: string, isPointer: bool, initializer: Option<Rhs>)
    | Assignment(lhs: Option<string>, rhs: Rhs)
    | StoreThrough(pointer: string, rhs: Rhs)

  datatype Parameter = Parameter(name: string, isPointer: bool)

  type PointsTo = map<string, set<Pointee>>

  const UNKNOWN_POINTEE := Pointee(Unknown, NotKnown)

  // ----- One statement -----

  /** The name a statement may give pointees to, and from which expression. */
  function Writes(st: Statement): Option<(string, Rhs)>
  {
    match st
    case VarDecl(name, isPointer, initializer) =>
      if name == "" || !isPointer || initializer.None? then None else Some((name, initializer.value))
    case Assignment(lhs, rhs) =>
      if lhs.None? || lhs.value == "" then None else Some((lhs.value, rhs))
    case StoreThrough(_, _) => None
  }

  /** A copy out of a set with several members loses definiteness. */
  function Downgraded(p: Pointee, several: bool): Pointee
  {
    if several && p.confidence == Definite then p.(confidence := Possible) else p
  }

  function Resolve(m: PointsTo, rhs: Rhs): set<Pointee>
  {
    match rhs
    case AddressOf(operand) =>
      if operand.Some? && operand.value.name != "" then
        {Pointee(Named(operand.value.name, if operand.value.isFunction then Function else Variable), Definite)}
      else {UNKNOWN_POINTEE}
    case Name(r) =>
      if r.isFunction then (if r.name == "" then {} else {Pointee(Named(r.name, Function), Definite)})
      else if r.isArray then (if r.name == "" then {} else {Pointee(Named(r.name, Array), Definite)})
      else if r.name in m then set p | p in m[r.name] :: Downgraded(p, |m[r.name]| > 1)
      else {UNKNOWN_POINTEE}
    case Call(callee) => {Pointee(Heap(callee), Possible)}
    case Other => {}
  }

  function Get(m: PointsTo, name: string): set<Pointee>
  {
    if name in m then m[name] else {}
  }

  function Add(m: PointsTo, name: string, more: set<Pointee>): PointsTo
  {
    if more == {} then m else m[name := Get(m, name) + more]
  }

  function Handle(m: PointsTo, st: Statement): PointsTo
  {
    var w := Writes(st);
    if w.None? then m else Add(m, w.value.0, Resolve(m, w.value.1))
  }

  /** The map after the first `k` statements of one pass. */
  ghost function After(m: PointsTo, sts: seq<Statement>, k: nat): PointsTo
    requires k <= |sts|
  {
    if k == 0 then m else Handle(After(m, sts, k - 1), sts[k - 1])
  }

  ghost function Passes(m: PointsTo, sts: seq<Statement>, k: nat): PointsTo
  {
    if k == 0 then m else
      var before := Passes(m, sts, k - 1);
      After(before, sts, |sts|)
  }

  ghost function Seed(params: seq<Parameter>): PointsTo
  {
    if params == [] then map[] else
      var m := Seed(params[..|params| - 1]);
      var p := Last(params);
      if p.isPointer && p.name != "" then Add(m, p.name, {UNKNOWN_POINTEE}) else m
  }

  /** Handling the statement once more would add nothing. */
  ghost predicate ClosedUnder(m: PointsTo, st: Statement)
  {
    Handle(m, st) == m
  }

  ghost predicate Saturated(m: PointsTo, sts: seq<Statement>)
  {
    forall st :: st in sts ==> ClosedUnder(m, st)
  }

  // ----- Growth -----

  ghost predicate Below(m: PointsTo, n: PointsTo)
  {
    forall d :: d in m ==> d in n && m[d] <= n[d]
  }

  lemma BelowAntisymmetric(m: PointsTo, n: PointsTo)
    requires Below(m, n) && Below(n, m)
    ensures m == n
  {
    assert forall d :: d in m <==> d in n;
    assert forall d :: d in m ==> m[d] == n[d];
  }

  lemma AfterStep(m: PointsTo, sts: seq<Statement>, i: nat)
    requires i < |sts|
    ensures After(m, sts, i + 1) == Handle(After(m, sts, i), sts[i]) && After(m, sts, 0) == m
  {
  }

  lemma {:induction false} AfterGrows(m: PointsTo, sts: seq<Statement>, i: nat, k: nat)
    requires i <= k <= |sts|
    ensures Below(After(m, sts, i), After(m, sts, k))
  {
    if i < k {
      AfterGrows(m, sts, i, k - 1);
    }
  }

  /** A pass that changes nothing leaves a closed map. */
  lemma QuietPassIsClosed(m: PointsTo, sts: seq<Statement>)
    requires After(m, sts, |sts|) == m
    ensures Saturated(m, sts)
  {
    forall st | st in sts
      ensures ClosedUnder(m, st)
    {
      var i :| 0 <= i < |sts| && sts[i] == st;
      AfterStep(m, sts, i);
      AfterGrows(m, sts, 0, i);
      AfterGrows(m, sts, i, |sts|);
      BelowAntisymmetric(m, After(m, sts, i));
      AfterGrows(m, sts, i + 1, |sts|);
      AfterGrows(m, sts, 0, i + 1);
      BelowAntisymmetric(m, After(m, sts, i + 1));
    }
  }

  lemma {:induction false} ClosedStays(m: PointsTo, sts: seq<Statement>, k: nat)
    requires Saturated(m, sts) && k <= |sts|
    ensures After(m, sts, k) == m
  {
    if k > 0 {
      ClosedStays(m, sts, k - 1);
      assert ClosedUnder(m, sts[k - 1]);
    }
  }

  // ----- Confidence -----

  ghost predicate SeveralOrigins(s: set<Pointee>)
  {
    exists p, q :: p in s && q in s && p.origin != q.origin
  }

  /** The confidence an origin is copied with out of a set. */
  function Grade(o: Origin, several: bool): Confidence
  {
    match o
    case Named(_, _) => if several then Possible else Definite
    case Heap(_) => Possible
    case Unknown => NotKnown
  }

  /** A named pointee is merely possible only in a set with several origins. */
  ghost predicate Graded(s: set<Pointee>)
  {
    && s != {}
    && forall p :: p in s ==>
         || p.confidence == Grade(p.origin, false)
         || (p.confidence == Grade(p.origin, true) && SeveralOrigins(s))
  }

  ghost predicate WellGraded(m: PointsTo)
  {
    forall d :: d in m ==> Graded(m[d])
  }

  lemma LargeMeansSeveralOrigins(s: set<Pointee>)
    requires Graded(s)
    ensures |s| > 1 <==> SeveralOrigins(s)
  {
    if SeveralOrigins(s) {
      var a, b :| a in s && b in s && a.origin != b.origin;
      assert {a, b} <= s;
      SubsetSize({a, b}, s);
    }
    if |s| > 1 {
      var p, q := TwoMembers(s);
      assert p.origin != q.origin || p.confidence != q.confidence;
    }
  }

  lemma TwoMembers<T>(s: set<T>) returns (x: T, y: T)
    requires |s| > 1
    ensures x in s && y in s && x != y
  {
    x :| x in s;
    assert |s - {x}| > 0;
    y :| y in s - {x};
  }

  lemma {:induction false} SubsetSize<T>(a: set<T>, b: set<T>)
    requires a <= b
    ensures |a| <= |b|
  {
    if a != {} {
      var x :| x in a;
      SubsetSize(a - {x}, b - {x});
    }
  }

  ghost function Origins(s: set<Pointee>): set<Origin>
  {
    set p | p in s :: p.origin
  }

  /** A copy contributes each origin of the set once, graded by whether there
      are several origins: the confidences present do not matter. */
  lemma CopyContribution(s: set<Pointee>, q: Pointee)
    requires Graded(s)
    ensures q in (set p | p in s :: Downgraded(p, |s| > 1))
       <==> q.origin in Origins(s) && q.confidence == Grade(q.origin, SeveralOrigins(s))
  {
    LargeMeansSeveralOrigins(s);
    if q.origin in Origins(s) && q.confidence == Grade(q.origin, SeveralOrigins(s)) {
      var p :| p in s && p.origin == q.origin;
      assert Downgraded(p, |s| > 1) == q;
    }
  }

  lemma AddGraded(m: PointsTo, d: string, more: set<Pointee>)
    requires WellGraded(m) && (more != {} ==> Graded(more))
    ensures WellGraded(Add(m, d, more))
  {
    if more != {} {
      var s := Get(m, d) + more;
      forall p | p in s
        ensures p.confidence == Grade(p.origin, false) || (p.confidence == Grade(p.origin, true) && SeveralOrigins(s))
      {
        if p in more {
          if SeveralOrigins(more) {
            var a, b :| a in more && b in more && a.origin != b.origin;
            assert a in s && b in s;
          }
        } else if SeveralOrigins(m[d]) {
          var a, b :| a in m[d] && b in m[d] && a.origin != b.origin;
          assert a in s && b in s;
        }
      }
    }
  }

  lemma ResolveGraded(m: PointsTo, rhs: Rhs)
    requires WellGraded(m)
    ensures Resolve(m, rhs) != {} ==> Graded(Resolve(m, rhs))
  {
    if rhs.Name? && !rhs.reference.isFunction && !rhs.reference.isArray && rhs.reference.name in m {
      var s := m[rhs.reference.name];
      var c := Resolve(m, rhs);
      assert c == set p | p in s :: Downgraded(p, |s| > 1);
      LargeMeansSeveralOrigins(s);
      if SeveralOrigins(s) {
        var a, b :| a in s && b in s && a.origin != b.origin;
        assert Downgraded(a, true) in c && Downgraded(b, true) in c;
        assert SeveralOrigins(c);
      }
      forall q | q in c
        ensures q.confidence == Grade(q.origin, SeveralOrigins(s))
      {
        CopyContribution(s, q);
      }
    }
  }

  lemma HandleGraded(m: PointsTo, st: Statement)
    requires WellGraded(m)
    ensures WellGraded(Handle(m, st))
  {
    var w := Writes(st);
    if w.Some? {
      ResolveGraded(m, w.value.1);
      AddGraded(m, w.value.0, Resolve(m, w.value.1));
    }
  }

  lemma {:induction false} AfterGraded(m: PointsTo, sts: seq<Statement>, k: nat)
    requires WellGraded(m) && k <= |sts|
    ensures WellGraded(After(m, sts, k))
  {
    if k > 0 {
      AfterGraded(m, sts, k - 1);
      HandleGraded(After(m, sts, k - 1), sts[k - 1]);
    }
  }

  lemma {:induction false} SeedGraded(params: seq<Parameter>)
    ensures WellGraded(Seed(params))
  {
    if params != [] {
      SeedGraded(params[..|params| - 1]);
      AddGraded(Seed(params[..|params| - 1]), Last(params).name, {UNKNOWN_POINTEE});
    }
  }

  lemma {:induction false} PassesGraded(m: PointsTo, sts: seq<Statement>, k: nat)
    requires WellGraded(m)
    ensures WellGraded(Passes(m, sts, k))
  {
    if k > 0 {
      PassesGraded(m, sts, k - 1);
      AfterGraded(Passes(m, sts, k - 1), sts, |sts|);
    }
  }

  // ----- Which names are tracked -----

  /** The expression always yields at least one pointee. */
  predicate Yields(rhs: Rhs)
  {
    match rhs
    case Name(r) => (r.isFunction || r.isArray) ==> r.name != ""
    case Other => false
    case _ => true
  }

  /** The name the statement makes a key of the map, if any. */
  function Tracks(st: Statement): Option<string>
  {
    var w := Writes(st);
    if w.Some? && Yields(w.value.1) then Some(w.value.0) else None
  }

  lemma ResolveYields(m: PointsTo, rhs: Rhs)
    requires WellGraded(m)
    ensures Resolve(m, rhs) != {} <==> Yields(rhs)
  {
    if rhs.Name? && !rhs.reference.isFunction && !rhs.reference.isArray && rhs.reference.name in m {
      var s := m[rhs.reference.name];
      var p :| p in s;
      assert Downgraded(p, |s| > 1) in Resolve(m, rhs);
    }
  }

  lemma HandleKeys(m: PointsTo, st: Statement)
    requires WellGraded(m)
    ensures Handle(m, st).Keys == m.Keys + (if Tracks(st).Some? then {Tracks(st).value} else {})
  {
    var w := Writes(st);
    if w.Some? {
      ResolveYields(m, w.value.1);
    }
  }

  ghost function TrackedBy(sts: seq<Statement>): set<string>
  {
    set st | st in sts && Tracks(st).Some? :: Tracks(st).value
  }

  lemma {:induction false} AfterKeys(m: PointsTo, sts: seq<Statement>, k: nat)
    requires WellGraded(m) && k <= |sts|
    ensures After(m, sts, k).Keys == m.Keys + TrackedBy(sts[..k])
  {
    if k > 0 {
      AfterKeys(m, sts, k - 1);
      AfterGraded(m, sts, k - 1);
      HandleKeys(After(m, sts, k - 1), sts[k - 1]);
      assert sts[..k] == sts[..k - 1] + [sts[k - 1]];
    }
  }

  /** Every name a statement can track is a key already. */
  ghost predicate Settled(m: PointsTo, sts: seq<Statement>)
  {
    TrackedBy(sts) <= m.Keys
  }

  lemma {:induction false} PassesKeys(m: PointsTo, sts: seq<Statement>, k: nat)
    requires WellGraded(m) && k > 0
    ensures Passes(m, sts, k).Keys == m.Keys + TrackedBy(sts)
  {
    PassesGraded(m, sts, k - 1);
    if k > 1 {
      PassesKeys(m, sts, k - 1);
    }
    AfterKeys(Passes(m, sts, k - 1), sts, |sts|);
    assert sts[..|sts|] == sts;
  }

  // ----- Where one origin can be -----

  /** The names that may hold the origin. */
  ghost function Holders(m: PointsTo, o: Origin): set<string>
  {
    set d | d in m && o in Origins(m[d])
  }

  /** The expression yields the origin, given who holds it and who is tracked. */
  ghost predicate Offers(rhs: Rhs, o: Origin, holders: set<string>, tracked: set<string>)
  {
    match rhs
    case AddressOf(operand) =>
      if operand.Some? && operand.value.name != "" then
        o == Named(operand.value.name, if operand.value.isFunction then Function else Variable)
      else o == Unknown
    case Name(r) =>
      if r.isFunction then r.name != "" && o == Named(r.name, Function)
      else if r.isArray then r.name != "" && o == Named(r.name, Array)
      else if r.name in tracked then r.name in holders
      else o == Unknown
    case Call(callee) => o == Heap(callee)
    case Other => false
  }

  lemma ResolveOffers(m: PointsTo, rhs: Rhs, o: Origin)
    ensures o in Origins(Resolve(m, rhs)) <==> Offers(rhs, o, Holders(m, o), m.Keys)
  {
    if rhs.Name? && !rhs.reference.isFunction && !rhs.reference.isArray && rhs.reference.name in m {
      var s := m[rhs.reference.name];
      var c := Resolve(m, rhs);
      assert c == set p | p in s :: Downgraded(p, |s| > 1);
      if o in Origins(c) {
        var q :| q in c && q.origin == o;
        var p :| p in s && Downgraded(p, |s| > 1) == q;
        assert p.origin == o;
      }
      if o in Origins(s) {
        var p :| p in s && p.origin == o;
        assert Downgraded(p, |s| > 1) in c;
      }
    } else if rhs.AddressOf? || rhs.Call? || rhs.Name? {
      assert forall p :: p in Resolve(m, rhs) ==> Resolve(m, rhs) == {p};
      if Resolve(m, rhs) != {} {
        var p :| p in Resolve(m, rhs);
        assert Origins({p}) == {p.origin};
      }
    }
  }

  /** One statement spreads an origin by at most the name it writes. */
  lemma HandleHolders(m: PointsTo, st: Statement, o: Origin)
    ensures var w := Writes(st);
            Holders(Handle(m, st), o) == Holders(m, o) +
              (if w.Some? && Offers(w.value.1, o, Holders(m, o), m.Keys) then {w.value.0} else {})
  {
    var w := Writes(st);
    if w.Some? {
      var c := Resolve(m, w.value.1);
      ResolveOffers(m, w.value.1, o);
      assert Origins(Get(m, w.value.0) + c) == Origins(Get(m, w.value.0)) + Origins(c);
    }
  }

  lemma {:induction false} HoldersGrow(m: PointsTo, sts: seq<Statement>, i: nat, k: nat, o: Origin)
    requires i <= k <= |sts|
    ensures Holders(After(m, sts, i), o) <= Holders(After(m, sts, k), o)
  {
    if i < k {
      HoldersGrow(m, sts, i, k - 1, o);
      HandleHolders(After(m, sts, k - 1), sts[k - 1], o);
    }
  }

  /** The origin can spread no further. */
  ghost predicate Stable(m: PointsTo, sts: seq<Statement>, o: Origin)
  {
    forall st :: st in sts && Writes(st).Some? && Offers(Writes(st).value.1, o, Holders(m, o), m.Keys)
      ==> Writes(st).value.0 in Holders(m, o)
  }

  lemma {:induction false} StableStays(m: PointsTo, sts: seq<Statement>, o: Origin, k: nat)
    requires WellGraded(m) && Settled(m, sts) && Stable(m, sts, o) && k <= |sts|
    ensures Holders(After(m, sts, k), o) == Holders(m, o) && After(m, sts, k).Keys == m.Keys
  {
    hide Resolve, Handle, Offers, Holders, WellGraded;
    AfterKeys(m, sts, k);
    if k > 0 {
      StableStays(m, sts, o, k - 1);
      AfterKeys(m, sts, k - 1);
      HandleHolders(After(m, sts, k - 1), sts[k - 1], o);
      assert sts[k - 1] in sts;
    }
  }

  lemma SettledKeys(m: PointsTo, sts: seq<Statement>, k: nat)
    requires WellGraded(m) && Settled(m, sts) && k <= |sts|
    ensures After(m, sts, k).Keys == m.Keys
  {
    AfterKeys(m, sts, k);
    assert TrackedBy(sts[..k]) <= TrackedBy(sts);
  }

  /** A pass that spreads an origin no further shows it is stable. */
  lemma UnchangedIsStable(m: PointsTo, sts: seq<Statement>, o: Origin)
    requires WellGraded(m) && Settled(m, sts)
    requires Holders(After(m, sts, |sts|), o) == Holders(m, o)
    ensures Stable(m, sts, o)
  {
    hide After, Resolve, Handle, Offers, Holders, WellGraded, TrackedBy;
    forall st | st in sts && Writes(st).Some? && Offers(Writes(st).value.1, o, Holders(m, o), m.Keys)
      ensures Writes(st).value.0 in Holders(m, o)
    {
      var i :| 0 <= i < |sts| && sts[i] == st;
      AfterStep(m, sts, i);
      HoldersGrow(m, sts, 0, i, o);
      HoldersGrow(m, sts, i, |sts|, o);
      assert Holders(After(m, sts, i), o) == Holders(m, o);
      SettledKeys(m, sts, i);
      HandleHolders(After(m, sts, i), st, o);
      HoldersGrow(m, sts, i + 1, |sts|, o);
    }
  }

  /** The first pass brings an origin to every name that is offered it
      afterwards, unless the offer is a copy from a name it reached late. */
  lemma FirstPassReaches(m: PointsTo, sts: seq<Statement>, o: Origin)
    requires WellGraded(m)
    ensures SpreadTo(After(m, sts, |sts|), sts, o, 1)
  {
    hide After, Resolve, Handle, Holders, WellGraded, TrackedBy;
    var n := After(m, sts, |sts|);
    if !Stable(n, sts, o) {
      var st :| st in sts && Writes(st).Some? && Offers(Writes(st).value.1, o, Holders(n, o), n.Keys)
        && Writes(st).value.0 !in Holders(n, o);
      var i :| 0 <= i < |sts| && sts[i] == st;
      var x := LateOffer(m, sts, i, o);
      assert x in Holders(n, o) * TrackedBy(sts);
    }
  }

  /** An offer the first pass did not take up is a copy from a tracked name. */
  lemma LateOffer(m: PointsTo, sts: seq<Statement>, i: nat, o: Origin) returns (x: string)
    requires WellGraded(m) && i < |sts| && Writes(sts[i]).Some?
    requires var n := After(m, sts, |sts|);
      && Offers(Writes(sts[i]).value.1, o, Holders(n, o), n.Keys)
      && Writes(sts[i]).value.0 !in Holders(n, o)
    ensures x in Holders(After(m, sts, |sts|), o) && x in TrackedBy(sts)
  {
    hide After, Resolve, Handle, Holders, WellGraded, TrackedBy;
    var a, n, rhs := After(m, sts, i), After(m, sts, |sts|), Writes(sts[i]).value.1;
    AfterStep(m, sts, i);
    KeysGrow(m, sts, i);
    HandleHolders(a, sts[i], o);
    HoldersGrow(m, sts, i + 1, |sts|, o);
    assert !Offers(rhs, o, Holders(a, o), a.Keys);
    HoldersOnlyFrom(m, sts, |sts|, o);
    HoldersGrow(m, sts, 0, i, o);
    HoldersTracked(a, o);
    x := rhs.reference.name;
  }

  lemma HoldersTracked(m: PointsTo, o: Origin)
    ensures Holders(m, o) <= m.Keys
  {
  }

  lemma KeysGrow(m: PointsTo, sts: seq<Statement>, i: nat)
    requires WellGraded(m) && i <= |sts|
    ensures After(m, sts, i).Keys <= After(m, sts, |sts|).Keys
  {
    AfterGrows(m, sts, i, |sts|);
  }

  lemma {:induction false} HoldersOnlyFrom(m: PointsTo, sts: seq<Statement>, k: nat, o: Origin)
    requires WellGraded(m) && k <= |sts|
    ensures Holders(After(m, sts, k), o) <= Holders(m, o) + TrackedBy(sts)
  {
    if k > 0 {
      HoldersOnlyFrom(m, sts, k - 1, o);
      HandleHolders(After(m, sts, k - 1), sts[k - 1], o);
      var w := Writes(sts[k - 1]);
      if w.Some? && Yields(w.value.1) {
        assert Tracks(sts[k - 1]) == Some(w.value.0) && sts[k - 1] in sts;
        assert w.value.0 in TrackedBy(sts);
      }
    }
  }

  lemma {:induction false} TrackedByFew(sts: seq<Statement>)
    ensures |TrackedBy(sts)| <= |sts|
  {
    if sts == [] {
      assert TrackedBy(sts) == {};
    } else {
      TrackedByFew(sts[1..]);
      var first := if Tracks(sts[0]).Some? then {Tracks(sts[0]).value} else {};
      assert sts == [sts[0]] + sts[1..];
      assert TrackedBy(sts) == first + TrackedBy(sts[1..]);
    }
  }

  /** The origin is stable, or at least `k` trackable names hold it. */
  ghost predicate SpreadTo(n: PointsTo, sts: seq<Statement>, o: Origin, k: nat)
  {
    Stable(n, sts, o) || |Holders(n, o) * TrackedBy(sts)| >= k
  }

  /** Every pass either finds an origin stable or brings it to a new name. */
  lemma PassSpreads(b: PointsTo, n: PointsTo, sts: seq<Statement>, k: nat, o: Origin)
    requires WellGraded(b) && Settled(b, sts) && n == After(b, sts, |sts|)
    requires SpreadTo(b, sts, o, k)
    ensures SpreadTo(n, sts, o, k + 1)
  {
    hide After, Handle, Resolve, Offers, WellGraded, Holders, TrackedBy;
    HoldersOnlyFrom(b, sts, |sts|, o);
    BeforePass(b, sts, o);
    HoldersGrow(b, sts, 0, |sts|, o);
    if Holders(n, o) == Holders(b, o) {
      UnchangedIsStable(b, sts, o);
    }
    if Stable(b, sts, o) {
      StableStays(b, sts, o, |sts|);
    } else {
      var x :| x in Holders(n, o) && x !in Holders(b, o);
      var had, now := Holders(b, o) * TrackedBy(sts), Holders(n, o) * TrackedBy(sts);
      assert had + {x} <= now;
      SubsetSize(had + {x}, now);
    }
  }

  lemma BeforePass(m: PointsTo, sts: seq<Statement>, o: Origin)
    ensures Holders(After(m, sts, 0), o) == Holders(m, o)
  {
  }

  lemma {:induction false} PassesSpread(m: PointsTo, sts: seq<Statement>, k: nat, o: Origin)
    requires WellGraded(m) && k > 0
    ensures SpreadTo(Passes(m, sts, k), sts, o, k)
  {
    hide After, Handle, Resolve, Offers, WellGraded, Holders, TrackedBy, Stable, SpreadTo;
    PassesGraded(m, sts, k - 1);
    if k == 1 {
      FirstPassReaches(m, sts, o);
    } else {
      PassesSpread(m, sts, k - 1, o);
      PassesKeys(m, sts, k - 1);
      PassSpreads(Passes(m, sts, k - 1), Passes(m, sts, k), sts, k - 1, o);
    }
  }

  /** An origin that every trackable name holds is stable. */
  lemma HeldByAllIsStable(n: PointsTo, sts: seq<Statement>, o: Origin)
    requires TrackedBy(sts) <= Holders(n, o)
    ensures Stable(n, sts, o)
  {
    forall st | st in sts && Writes(st).Some? && Offers(Writes(st).value.1, o, Holders(n, o), n.Keys)
      ensures Writes(st).value.0 in Holders(n, o)
    {
      assert Tracks(st).Some?;
      assert Tracks(st).value in TrackedBy(sts);
    }
  }

  /** As many passes as there are statements make every origin stable. */
  lemma OriginsStable(m: PointsTo, sts: seq<Statement>, o: Origin)
    requires WellGraded(m)
    ensures Stable(Passes(m, sts, |sts|), sts, o)
  {
    hide After, Handle, Resolve, Offers, WellGraded, Holders, TrackedBy;
    var n := Passes(m, sts, |sts|);
    if sts != [] {
      PassesSpread(m, sts, |sts|, o);
      TrackedByFew(sts);
      var all, got := TrackedBy(sts), Holders(n, o) * TrackedBy(sts);
      if got < all {
        ProperSubsetSmaller(got, all);
      } else {
        assert got == all;
        HeldByAllIsStable(n, sts, o);
      }
    }
  }

  lemma ProperSubsetSmaller<T>(a: set<T>, b: set<T>)
    requires a < b
    ensures |a| < |b|
  {
    assert !(b <= a);
    var x :| x in b && x !in a;
    SubsetSize(a + {x}, b);
  }

  /** What a statement contributes depends only on where the origins are. */
  lemma ResolveByOrigins(m: PointsTo, n: PointsTo, rhs: Rhs)
    requires WellGraded(m) && WellGraded(n) && m.Keys == n.Keys
    requires forall o :: Holders(m, o) == Holders(n, o)
    ensures Resolve(m, rhs) == Resolve(n, rhs)
  {
    if rhs.Name? && !rhs.reference.isFunction && !rhs.reference.isArray && rhs.reference.name in m {
      var x := rhs.reference.name;
      assert forall o :: o in Origins(m[x]) <==> x in Holders(m, o);
      assert forall o :: o in Origins(n[x]) <==> x in Holders(n, o);
      assert Origins(m[x]) == Origins(n[x]);
      SeveralByOrigins(m[x], n[x]);
      forall q
        ensures q in Resolve(m, rhs) <==> q in Resolve(n, rhs)
      {
        CopyContribution(m[x], q);
        CopyContribution(n[x], q);
      }
    }
  }

  lemma SeveralByOrigins(s: set<Pointee>, t: set<Pointee>)
    requires Origins(s) == Origins(t)
    ensures SeveralOrigins(s) == SeveralOrigins(t)
  {
    forall a: set<Pointee>
      ensures SeveralOrigins(a) <==> exists x, y :: x in Origins(a) && y in Origins(a) && x != y
    {
      if SeveralOrigins(a) {
        var p, q :| p in a && q in a && p.origin != q.origin;
        assert p.origin in Origins(a) && q.origin in Origins(a);
      }
    }
  }

  lemma NothingAdded(n: PointsTo, st: Statement)
    requires Writes(st).None?
    ensures ClosedUnder(n, st)
  {
  }

  lemma AddedBefore(a: PointsTo, n: PointsTo, st: Statement)
    requires Writes(st).Some? && Resolve(a, Writes(st).value.1) == Resolve(n, Writes(st).value.1)
    requires Below(Handle(a, st), n)
    ensures ClosedUnder(n, st)
  {
    var d, c := Writes(st).value.0, Resolve(n, Writes(st).value.1);
    if c != {} {
      assert d in Handle(a, st);
      assert c <= n[d];
      assert n[d] + c == n[d];
    }
  }

  /** Once no origin can spread, a single pass fixes all confidences. */
  lemma StablePassCloses(m: PointsTo, sts: seq<Statement>)
    requires WellGraded(m) && Settled(m, sts)
    requires forall o :: Stable(m, sts, o)
    ensures Saturated(After(m, sts, |sts|), sts)
  {
    hide After, Handle, Resolve, Offers, Holders, TrackedBy, Stable, Settled, WellGraded, Writes;
    var n := After(m, sts, |sts|);
    forall st | st in sts
      ensures ClosedUnder(n, st)
    {
      var i :| 0 <= i < |sts| && sts[i] == st;
      AfterStep(m, sts, i);
      var a := After(m, sts, i);
      forall o
        ensures Holders(a, o) == Holders(n, o)
      {
        StableStays(m, sts, o, i);
        StableStays(m, sts, o, |sts|);
      }
      StableStays(m, sts, Unknown, i);
      StableStays(m, sts, Unknown, |sts|);
      AfterGraded(m, sts, i);
      AfterGraded(m, sts, |sts|);
      if Writes(st).Some? {
        ResolveByOrigins(a, n, Writes(st).value.1);
        AfterGrows(m, sts, i + 1, |sts|);
        AddedBefore(a, n, st);
      } else {
        NothingAdded(n, st);
      }
    }
  }

  /** The bound of the source: one more pass than there are statements. */
  lemma BoundSuffices(params: seq<Parameter>, sts: seq<Statement>)
    ensures Saturated(Passes(Seed(params), sts, |sts| + 1), sts)
  {
    var m := Seed(params);
    SeedGraded(params);
    if sts != [] {
      var n := Passes(m, sts, |sts|);
      PassesGraded(m, sts, |sts|);
      PassesKeys(m, sts, |sts|);
      forall o
        ensures Stable(n, sts, o)
      {
        OriginsStable(m, sts, o);
      }
      StablePassCloses(n, sts);
    }
  }
}
