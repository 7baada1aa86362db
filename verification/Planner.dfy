/** Rule scheduling: tiers from categories and declared dependencies, and the
    groups in which rules run. */
module Planner {

  import opened Paths

  datatype Rule = Rule(id: string, category: string, dependencies: seq<string>)

  datatype Result<T> = Ok(value: T) | Cyclic(id: string)

  type Rules = map<string, Rule>

  /** Unknown categories run first, like those that need only the tree. */
  function CategoryTier(category: string): nat
  {
    if category == "B_type_system" then 1
    else if category == "C_control_flow" then 2
    else if category == "D_data_flow" then 3
    else if category == "E_cross_translation_unit" || category == "G_configuration_build" then 4
    else 0
  }

  /** Of several rules with one id, the last is the one looked up. */
  function ById(rules: seq<Rule>): Rules
  {
    if rules == [] then map[] else
      var n := |rules| - 1;
      ById(rules[..n])[rules[n].id := rules[n]]
  }

  function Base(byId: Rules, id: string): nat
  {
    if id in byId then CategoryTier(byId[id].category) else 0
  }

  /** From a rule to each dependency that is among the given rules. */
  ghost function DependencyArcs(byId: Rules): set<(string, string)>
  {
    set r, d | r in byId && d in byId[r].dependencies && d in byId :: (r, d)
  }

  /** A chain of dependencies that starts at the rule. */
  ghost predicate Chain(byId: Rules, p: seq<string>, id: string)
  {
    IsWalk(DependencyArcs(byId), p) && p[0] == id
  }

  ghost function Weight(byId: Rules, p: seq<string>): int
    requires |p| > 0
  {
    Base(byId, Last(p)) + |p| - 1
  }

  /** The tier is the largest weight of a dependency chain from the rule. */
  ghost predicate TierIs(byId: Rules, id: string, t: int)
  {
    && (exists p :: Chain(byId, p, id) && Weight(byId, p) == t)
    && (forall p :: Chain(byId, p, id) ==> Weight(byId, p) <= t)
  }

  lemma ByIdKeys(rules: seq<Rule>)
    ensures forall r :: r in rules ==> r.id in ById(rules)
    ensures forall id :: id in ById(rules) ==> ById(rules)[id] in rules && ById(rules)[id].id == id
  {
    if rules != [] {
      var n := |rules| - 1;
      ByIdKeys(rules[..n]);
      assert rules == rules[..n] + [rules[n]];
    }
  }

  lemma ChainStart(byId: Rules, id: string)
    ensures Chain(byId, [id], id) && Weight(byId, [id]) == Base(byId, id)
  {
  }

  /** A dependency's chain, with the rule put in front. */
  lemma ChainCons(byId: Rules, p: seq<string>, id: string, d: string)
    requires Chain(byId, p, d) && (id, d) in DependencyArcs(byId)
    ensures Chain(byId, [id] + p, id) && Weight(byId, [id] + p) == Weight(byId, p) + 1
  {
    hide DependencyArcs, Base;
    var q := [id] + p;
    forall i | 0 < i < |q|
      ensures (q[i - 1], q[i]) in DependencyArcs(byId)
    {
      if i > 1 {
        assert q[i - 1] == p[i - 2] && q[i] == p[i - 1];
      }
    }
  }

  lemma ChainRest(byId: Rules, p: seq<string>, id: string)
    requires Chain(byId, p, id) && |p| > 1
    ensures (id, p[1]) in DependencyArcs(byId)
    ensures Chain(byId, p[1..], p[1]) && Weight(byId, p) == Weight(byId, p[1..]) + 1
  {
    hide DependencyArcs, Base;
    assert forall i :: 0 <= i < |p[1..]| ==> p[1..][i] == p[i + 1];
  }

  lemma TierUnique(byId: Rules, id: string, t: int, u: int)
    requires TierIs(byId, id, t) && TierIs(byId, id, u)
    ensures t == u
  {
  }

  /** A dependency's tier is strictly lower. */
  lemma TierDrops(byId: Rules, id: string, d: string, t: int, u: int)
    requires (id, d) in DependencyArcs(byId) && TierIs(byId, id, t) && TierIs(byId, d, u)
    ensures u < t
  {
    hide DependencyArcs, Weight;
    var p :| Chain(byId, p, d) && Weight(byId, p) == u;
    ChainCons(byId, p, id, d);
  }

  /** The tier is found from the dependencies' tiers alone. */
  lemma TierFromDependencies(byId: Rules, id: string, t: int, tiers: map<string, int>)
    requires id in byId
    requires exists p :: Chain(byId, p, id) && Weight(byId, p) == t
    requires Base(byId, id) <= t
    requires forall d :: d in byId[id].dependencies && d in byId ==> d in tiers && TierIs(byId, d, tiers[d]) && tiers[d] + 1 <= t
    ensures TierIs(byId, id, t)
  {
    hide Weight;
    forall p | Chain(byId, p, id)
      ensures Weight(byId, p) <= t
    {
      if |p| == 1 {
        assert p == [id];
        ChainStart(byId, id);
      } else {
        ChainRest(byId, p, id);
        assert p[1] in byId[id].dependencies;
      }
    }
  }

  /** On a cycle chains of every length begin, so no tier is the largest. */
  lemma {:induction false} CycleHasLongChains(byId: Rules, v: string, n: nat)
    requires OnCycle(DependencyArcs(byId), v)
    ensures exists p :: Chain(byId, p, v) && Last(p) == v && |p| > n
  {
    var arcs := DependencyArcs(byId);
    var c :| WalkFromTo(arcs, c, v, v) && |c| > 1;
    if n == 0 {
      assert Chain(byId, c, v);
    } else {
      CycleHasLongChains(byId, v, n - 1);
      var p :| Chain(byId, p, v) && Last(p) == v && |p| > n - 1;
      JoinWalks(arcs, p, c);
      assert Chain(byId, p + c[1..], v);
    }
  }

  lemma TierMeansNoCycle(byId: Rules, v: string, t: int)
    requires TierIs(byId, v, t)
    ensures !OnCycle(DependencyArcs(byId), v)
  {
    if OnCycle(DependencyArcs(byId), v) {
      CycleHasLongChains(byId, v, if t >= 0 then t + 1 else 0);
    }
  }

  // ----- Groups -----

  ghost predicate HasTiers(byId: Rules, tiers: map<string, int>)
  {
    forall id :: id in tiers ==> id in byId && TierIs(byId, id, tiers[id])
  }

  /** The rules of one tier, in input order. */
  function OfTier(rules: seq<Rule>, tiers: map<string, int>, t: int): (r: seq<Rule>)
    requires forall x :: x in rules ==> x.id in tiers
    ensures forall x :: x in r <==> x in rules && tiers[x.id] == t
  {
    if rules == [] then [] else
      var n := |rules| - 1;
      assert rules[n] in rules && rules == rules[..n] + [rules[n]];
      OfTier(rules[..n], tiers, t) + (if tiers[rules[n].id] == t then [rules[n]] else [])
  }

  ghost predicate Increasing(s: seq<int>)
  {
    forall i, j :: 0 <= i < j < |s| ==> s[i] < s[j]
  }

  /** Group `i` is the whole of tier `levels[i]`, the levels increase, and no
      group is empty. */
  ghost predicate GroupsAre(rules: seq<Rule>, tiers: map<string, int>, groups: seq<seq<Rule>>, levels: seq<int>)
    requires forall x :: x in rules ==> x.id in tiers
  {
    && |levels| == |groups| && Increasing(levels)
    && (forall i :: 0 <= i < |groups| ==> groups[i] == OfTier(rules, tiers, levels[i]) && groups[i] != [])
    && (forall x :: x in rules ==> tiers[x.id] in levels)
  }

  /** A plan: groups by tier, for the tiers that dependency chains prescribe. */
  ghost predicate IsPlan(rules: seq<Rule>, groups: seq<seq<Rule>>)
  {
    exists tiers: map<string, int>, levels ::
      && (forall x :: x in rules ==> x.id in tiers)
      && HasTiers(ById(rules), tiers) && GroupsAre(rules, tiers, groups, levels)
  }

  function Flatten(groups: seq<seq<Rule>>): seq<Rule>
  {
    if groups == [] then [] else Flatten(groups[..|groups| - 1]) + groups[|groups| - 1]
  }

  ghost function Count(s: seq<Rule>, x: Rule): nat
  {
    multiset(s)[x]
  }

  lemma {:induction false} OfTierCount(rules: seq<Rule>, tiers: map<string, int>, t: int, x: Rule)
    requires forall x :: x in rules ==> x.id in tiers
    ensures Count(OfTier(rules, tiers, t), x) == if x in rules && tiers[x.id] == t then Count(rules, x) else 0
  {
    if rules != [] {
      var n := |rules| - 1;
      assert rules[n] in rules && rules == rules[..n] + [rules[n]];
      OfTierCount(rules[..n], tiers, t, x);
    }
  }

  lemma CountAppend(a: seq<Rule>, b: seq<Rule>, x: Rule)
    ensures Count(a + b, x) == Count(a, x) + Count(b, x)
  {
  }

  lemma {:induction false} FlattenCount(rules: seq<Rule>, tiers: map<string, int>, groups: seq<seq<Rule>>, levels: seq<int>, x: Rule)
    requires forall y :: y in rules ==> y.id in tiers
    requires |levels| == |groups| && Increasing(levels)
    requires forall i :: 0 <= i < |groups| ==> groups[i] == OfTier(rules, tiers, levels[i])
    ensures Count(Flatten(groups), x) == if x in rules && tiers[x.id] in levels then Count(rules, x) else 0
  {
    hide OfTier, Count;
    if groups == [] {
      NothingCounted(x);
    } else {
      var n := |groups| - 1;
      FlattenCount(rules, tiers, groups[..n], levels[..n], x);
      OfTierCount(rules, tiers, levels[n], x);
      CountAppend(Flatten(groups[..n]), groups[n], x);
      assert levels == levels[..n] + [levels[n]];
    }
  }

  lemma NothingCounted(x: Rule)
    ensures Count([], x) == 0
  {
  }

  /** The groups hold every given rule, exactly as often as it was given. */
  lemma GroupsPartition(rules: seq<Rule>, groups: seq<seq<Rule>>)
    requires IsPlan(rules, groups)
    ensures multiset(Flatten(groups)) == multiset(rules)
  {
    var tiers: map<string, int>, levels :| (forall x :: x in rules ==> x.id in tiers) &&
      HasTiers(ById(rules), tiers) && GroupsAre(rules, tiers, groups, levels);
    forall x: Rule
      ensures multiset(Flatten(groups))[x] == multiset(rules)[x]
    {
      FlattenCount(rules, tiers, groups, levels, x);
      assert Count(Flatten(groups), x) == Count(rules, x);
    }
  }

  /** Every member of group `i` has tier `levels[i]`, and the levels increase. */
  ghost predicate Levelled(tiers: map<string, int>, groups: seq<seq<Rule>>, levels: seq<int>)
  {
    && |levels| == |groups| && Increasing(levels)
    && forall i, x :: 0 <= i < |groups| && x in groups[i] ==> x.id in tiers && tiers[x.id] == levels[i]
  }

  /** What running the groups in turn relies on: each given rule is in them as
      often as it was given, and the groups follow the tiers. */
  ghost predicate IsStaged(rules: seq<Rule>, groups: seq<seq<Rule>>)
  {
    && multiset(Flatten(groups)) == multiset(rules)
    && exists tiers: map<string, int>, levels ::
         (forall x :: x in rules ==> x.id in tiers) && HasTiers(ById(rules), tiers) && Levelled(tiers, groups, levels)
  }

  lemma PlanIsStaged(rules: seq<Rule>, groups: seq<seq<Rule>>)
    requires IsPlan(rules, groups)
    ensures IsStaged(rules, groups)
  {
    hide HasTiers, ById, Flatten;
    GroupsPartition(rules, groups);
    var tiers: map<string, int>, levels :| (forall x :: x in rules ==> x.id in tiers) &&
      HasTiers(ById(rules), tiers) && GroupsAre(rules, tiers, groups, levels);
    assert Levelled(tiers, groups, levels);
  }

  /** One or more declared dependencies lead from one rule to the other. */
  ghost predicate DependsOn(rules: seq<Rule>, id: string, d: string)
  {
    exists p :: WalkFromTo(DependencyArcs(ById(rules)), p, id, d) && |p| > 1
  }

  lemma {:induction false} TierDropsAlong(byId: Rules, tiers: map<string, int>, p: seq<string>)
    requires IsWalk(DependencyArcs(byId), p) && |p| > 1 && HasTiers(byId, tiers)
    requires forall id :: id in byId ==> id in tiers
    ensures p[0] in tiers && Last(p) in tiers && tiers[Last(p)] < tiers[p[0]]
  {
    assert (p[0], p[1]) in DependencyArcs(byId);
    TierDrops(byId, p[0], p[1], tiers[p[0]], tiers[p[1]]);
    if |p| > 2 {
      WalkBack(DependencyArcs(byId), p, 1);
      TierDropsAlong(byId, tiers, p[1..]);
    }
  }

  lemma DependencyTierLower(rules: seq<Rule>, tiers: map<string, int>, r: string, d: string)
    requires HasTiers(ById(rules), tiers) && ById(rules).Keys <= tiers.Keys && DependsOn(rules, r, d)
    ensures r in tiers && d in tiers && tiers[d] < tiers[r]
  {
    hide HasTiers, DependencyArcs, ById;
    var p :| WalkFromTo(DependencyArcs(ById(rules)), p, r, d) && |p| > 1;
    TierDropsAlong(ById(rules), tiers, p);
  }

  /** A rule's dependencies, direct or not, lie in strictly earlier groups. */
  lemma DependenciesEarlier(rules: seq<Rule>, groups: seq<seq<Rule>>, tiers: map<string, int>, levels: seq<int>,
                            i: nat, j: nat, r: Rule, d: Rule)
    requires HasTiers(ById(rules), tiers) && ById(rules).Keys <= tiers.Keys && Levelled(tiers, groups, levels)
    requires i < |groups| && j < |groups|
    ensures r in groups[i] && d in groups[j] && DependsOn(rules, r.id, d.id) ==> j < i
  {
    hide DependsOn, HasTiers, ById;
    if r in groups[i] && d in groups[j] && DependsOn(rules, r.id, d.id) {
      DependencyTierLower(rules, tiers, r.id, d.id);
      assert levels[j] < levels[i];
    }
  }
}
