/** The planner object: a memoised depth-first search for tiers that reports a
    cycle when it meets a rule it is still visiting. */
module ExecutionPlanning {

  import opened Paths
  import opened Planner
  import opened PlanOrder

  /** One or more dependency arcs lead from every member to the rule. */
  ghost predicate AllLeadTo(byId: Rules, visiting: set<string>, id: string)
  {
    forall v :: v in visiting ==> exists p :: WalkFromTo(DependencyArcs(byId), p, v, id) && |p| > 1
  }

  lemma LeadOn(byId: Rules, visiting: set<string>, id: string, d: string)
    requires AllLeadTo(byId, visiting, id) && (id, d) in DependencyArcs(byId)
    ensures AllLeadTo(byId, visiting + {id}, d)
  {
    hide DependencyArcs;
    var arcs := DependencyArcs(byId);
    forall v | v in visiting + {id}
      ensures exists p :: WalkFromTo(arcs, p, v, d) && |p| > 1
    {
      if v in visiting {
        var p :| WalkFromTo(arcs, p, v, id) && |p| > 1;
        WalkExtend(arcs, p, d);
      } else {
        assert WalkFromTo(arcs, [id, d], id, d);
      }
    }
  }

  /** Some chain from the rule weighs `t`, and it outweighs every chain through
      the first `k` dependencies. */
  ghost predicate PartialTier(byId: Rules, tiers: map<string, int>, id: string, k: nat, t: int)
    requires id in byId && k <= |byId[id].dependencies|
  {
    && (exists p :: Chain(byId, p, id) && Weight(byId, p) == t)
    && Base(byId, id) <= t
    && forall d :: d in byId[id].dependencies[..k] && d in byId ==> d in tiers && tiers[d] + 1 <= t
  }

  lemma StartTier(byId: Rules, tiers: map<string, int>, id: string)
    requires id in byId
    ensures PartialTier(byId, tiers, id, 0, Base(byId, id))
  {
    ChainStart(byId, id);
  }

  /** Taking one more dependency into account. */
  lemma NextTier(byId: Rules, before: map<string, int>, tiers: map<string, int>, id: string, k: nat, t: int)
    requires id in byId && k < |byId[id].dependencies| && PartialTier(byId, before, id, k, t)
    requires HasTiers(byId, tiers) && forall x :: x in before ==> x in tiers && tiers[x] == before[x]
    requires var d := byId[id].dependencies[k]; d in byId ==> d in tiers
    ensures var d := byId[id].dependencies[k];
      PartialTier(byId, tiers, id, k + 1, if d in byId && tiers[d] + 1 > t then tiers[d] + 1 else t)
  {
    hide Weight, Base;
    var deps := byId[id].dependencies;
    var d := deps[k];
    assert deps[..k + 1] == deps[..k] + [d];
    if d in byId && tiers[d] + 1 > t {
      assert TierIs(byId, d, tiers[d]);
      var p :| Chain(byId, p, d) && Weight(byId, p) == tiers[d];
      ChainCons(byId, p, id, d);
    }
  }

  lemma FinishTier(byId: Rules, tiers: map<string, int>, id: string, t: int)
    requires id in byId && HasTiers(byId, tiers) && PartialTier(byId, tiers, id, |byId[id].dependencies|, t)
    ensures HasTiers(byId, tiers[id := t])
  {
    hide Chain, Weight, Base;
    var deps := byId[id].dependencies;
    assert deps[..|deps|] == deps;
    TierFromDependencies(byId, id, t, tiers);
  }

  class Planning {
    const byId: Rules
    var resolvedTier: map<string, int>
    var visiting: set<string>

    constructor (rules: seq<Rule>)
      ensures byId == ById(rules) && resolvedTier == map[] && visiting == {}
    {
      var m: Rules := map[];
      assert rules[..0] == [];
      for i := 0 to |rules|
        invariant m == ById(rules[..i])
      {
        assert rules[..i + 1][..i] == rules[..i];
        m := m[rules[i].id := rules[i]];
      }
      assert rules[..|rules|] == rules;
      byId := m;
      resolvedTier := map[];
      visiting := {};
    }

    method Resolve(id: string) returns (r: Result<int>)
      requires id in byId && visiting <= byId.Keys
      requires HasTiers(byId, resolvedTier) && AllLeadTo(byId, visiting, id)
      modifies this
      ensures HasTiers(byId, resolvedTier)
      ensures forall x :: x in old(resolvedTier) ==> x in resolvedTier && resolvedTier[x] == old(resolvedTier)[x]
      ensures r.Ok? ==> visiting == old(visiting) && id in resolvedTier && resolvedTier[id] == r.value
      ensures r.Cyclic? ==> OnCycle(DependencyArcs(byId), r.id)
      decreases byId.Keys - visiting
    {
      hide Chain, Weight, TierIs, DependencyArcs, PartialTier, HasTiers, AllLeadTo;
      if id in resolvedTier {
        return Ok(resolvedTier[id]);
      }
      if id in visiting {
        MetAgain(byId, visiting, id);
        return Cyclic(id);
      }
      ghost var outer := visiting;
      visiting := visiting + {id};
      var tier: int := Base(byId, id);
      StartTier(byId, resolvedTier, id);
      var deps := byId[id].dependencies;
      for k := 0 to |deps|
        invariant visiting == outer + {id}
        invariant HasTiers(byId, resolvedTier) && PartialTier(byId, resolvedTier, id, k, tier)
        invariant forall x :: x in old(resolvedTier) ==> x in resolvedTier && resolvedTier[x] == old(resolvedTier)[x]
      {
        ghost var before := resolvedTier;
        if deps[k] in byId {
          DependencyArc(byId, id, deps[k]);
          LeadOn(byId, outer, id, deps[k]);
          var t := Resolve(deps[k]);
          if t.Cyclic? {
            return t;
          }
          NextTier(byId, before, resolvedTier, id, k, tier);
          tier := if t.value + 1 > tier then t.value + 1 else tier;
        } else {
          NextTier(byId, before, resolvedTier, id, k, tier);
        }
      }
      visiting := visiting - {id};
      FinishTier(byId, resolvedTier, id, tier);
      KeepTier(byId, old(resolvedTier), resolvedTier, id, tier);
      resolvedTier := resolvedTier[id := tier];
      return Ok(tier);
    }

    /** Resolves every rule in turn, each with nothing being visited. */
    method ResolveAll(rules: seq<Rule>) returns (r: Result<bool>)
      requires byId == ById(rules) && resolvedTier == map[] && visiting == {}
      modifies this
      ensures HasTiers(byId, resolvedTier)
      ensures r.Ok? ==> forall x :: x in rules ==> x.id in resolvedTier
      ensures r.Cyclic? ==> OnCycle(DependencyArcs(byId), r.id)
    {
      hide HasTiers, DependencyArcs, ById;
      ByIdKeys(rules);
      NoTiers(byId);
      for i := 0 to |rules|
        invariant HasTiers(byId, resolvedTier)
        invariant forall x :: x in rules[..i] ==> x.id in resolvedTier
      {
        visiting := {};
        assert rules[i] in rules && rules[..i + 1] == rules[..i] + [rules[i]];
        var t := Resolve(rules[i].id);
        if t.Cyclic? {
          return Cyclic(t.id);
        }
      }
      assert rules[..|rules|] == rules;
      r := Ok(true);
    }
  }

  lemma MetAgain(byId: Rules, visiting: set<string>, id: string)
    requires AllLeadTo(byId, visiting, id) && id in visiting
    ensures OnCycle(DependencyArcs(byId), id)
  {
  }

  lemma NoTiers(byId: Rules)
    ensures HasTiers(byId, map[]) && forall id :: AllLeadTo(byId, {}, id)
  {
  }

  /** A tier already known is found again. */
  lemma KeepTier(byId: Rules, before: map<string, int>, tiers: map<string, int>, id: string, t: int)
    requires HasTiers(byId, tiers) && HasTiers(byId, tiers[id := t])
    requires forall x :: x in before ==> x in tiers && tiers[x] == before[x]
    ensures forall x :: x in before ==> tiers[id := t][x] == before[x]
  {
    if id in tiers {
      TierUnique(byId, id, tiers[id], t);
    }
  }

  lemma CyclesAreInside(byId: Rules, v: string)
    requires OnCycle(DependencyArcs(byId), v)
    ensures v in byId
  {
    var p :| WalkFromTo(DependencyArcs(byId), p, v, v) && |p| > 1;
    assert (p[0], p[1]) in DependencyArcs(byId);
  }

  lemma PlanMeansNoCycle(rules: seq<Rule>, tiers: map<string, int>, v: string)
    requires HasTiers(ById(rules), tiers) && forall x :: x in rules ==> x.id in tiers
    ensures !OnCycle(DependencyArcs(ById(rules)), v)
  {
    hide DependencyArcs;
    ByIdKeys(rules);
    if OnCycle(DependencyArcs(ById(rules)), v) {
      CyclesAreInside(ById(rules), v);
      TierMeansNoCycle(ById(rules), v, tiers[v]);
    }
  }

  method SortLevels(s: set<int>) returns (r: seq<int>)
    ensures Increasing(r) && forall x :: x in r <==> x in s
  {
    r := [];
    var left := s;
    while left != {}
      invariant left <= s
      invariant Increasing(r) && forall x :: x in r <==> x in s && x !in left
      invariant forall x, y :: x in r && y in left ==> x < y
      decreases left
    {
      MinimumExists(left);
      var m :| m in left && forall x :: x in left ==> m <= x;
      assert forall i :: 0 <= i < |r| ==> r[i] in r && r[i] < m;
      r := r + [m];
      left := left - {m};
    }
  }

  lemma NoMembers(s: set<int>)
    requires forall a :: a !in s
    ensures s == {}
  {
    assert forall a :: a in s <==> a in {};
  }

  lemma {:induction false} MinimumExists(s: set<int>)
    requires s != {}
    ensures exists m :: m in s && forall x :: x in s ==> m <= x
  {
    if forall a :: a !in s {
      NoMembers(s);
    }
    var a :| a in s;
    if s != {a} {
      var rest := s - {a};
      assert s == rest + {a};
      assert rest != {};
      MinimumExists(rest);
      var m :| m in rest && forall x :: x in rest ==> m <= x;
      var least := if a <= m then a else m;
      assert least in s && forall x :: x in s ==> least <= x;
    }
  }

  /** The lists the tiers' groups hold once the first `k` rules are placed. */
  ghost predicate Placed(rules: seq<Rule>, tiers: map<string, int>, k: nat, lists: map<int, seq<Rule>>)
    requires k <= |rules| && forall x :: x in rules ==> x.id in tiers
  {
    forall t :: (if t in lists then lists[t] else []) == OfTier(rules[..k], tiers, t) && (t in lists ==> lists[t] != [])
  }

  method GroupRules(rules: seq<Rule>, tiers: map<string, int>) returns (groups: seq<seq<Rule>>, levels: seq<int>)
    requires forall x :: x in rules ==> x.id in tiers
    ensures GroupsAre(rules, tiers, groups, levels)
  {
    hide OfTier;
    var lists: map<int, seq<Rule>> := map[];
    PlaceNone(rules, tiers);
    for k := 0 to |rules|
      invariant Placed(rules, tiers, k, lists)
    {
      var t := tiers[rules[k].id];
      PlaceOne(rules, tiers, k, lists);
      lists := lists[t := (if t in lists then lists[t] else []) + [rules[k]]];
    }
    assert rules[..|rules|] == rules;
    levels := SortLevels(lists.Keys);
    groups := [];
    for i := 0 to |levels|
      invariant |groups| == i
      invariant forall j :: 0 <= j < i ==> groups[j] == OfTier(rules, tiers, levels[j]) && groups[j] != []
    {
      assert levels[i] in levels;
      groups := groups + [lists[levels[i]]];
    }
    AllPlaced(rules, tiers, lists);
  }

  lemma PlaceNone(rules: seq<Rule>, tiers: map<string, int>)
    requires forall x :: x in rules ==> x.id in tiers
    ensures Placed(rules, tiers, 0, map[])
  {
  }

  lemma AllPlaced(rules: seq<Rule>, tiers: map<string, int>, lists: map<int, seq<Rule>>)
    requires (forall x :: x in rules ==> x.id in tiers) && Placed(rules, tiers, |rules|, lists)
    ensures forall x :: x in rules ==> tiers[x.id] in lists
  {
    assert rules[..|rules|] == rules;
    forall x | x in rules
      ensures tiers[x.id] in lists
    {
      assert x in OfTier(rules, tiers, tiers[x.id]);
    }
  }

  lemma OfTierSnoc(rules: seq<Rule>, tiers: map<string, int>, k: nat, t: int)
    requires k < |rules| && forall x :: x in rules ==> x.id in tiers
    ensures OfTier(rules[..k + 1], tiers, t)
            == OfTier(rules[..k], tiers, t) + (if tiers[rules[k].id] == t then [rules[k]] else [])
  {
    assert rules[..k + 1][..k] == rules[..k] && rules[..k + 1][k] == rules[k];
  }

  lemma PlaceOne(rules: seq<Rule>, tiers: map<string, int>, k: nat, lists: map<int, seq<Rule>>)
    requires k < |rules| && (forall x :: x in rules ==> x.id in tiers) && Placed(rules, tiers, k, lists)
    ensures var t := tiers[rules[k].id];
      Placed(rules, tiers, k + 1, lists[t := (if t in lists then lists[t] else []) + [rules[k]]])
  {
    hide OfTier;
    var t := tiers[rules[k].id];
    var more := lists[t := (if t in lists then lists[t] else []) + [rules[k]]];
    forall u
      ensures (if u in more then more[u] else []) == OfTier(rules[..k + 1], tiers, u) && (u in more ==> more[u] != [])
    {
      OfTierSnoc(rules, tiers, k, u);
    }
  }

  /** A plan comes out unless the dependencies among the rules form a cycle. */
  method ResolveExecutionGroups(rules: seq<Rule>) returns (r: Result<seq<seq<Rule>>>)
    ensures r.Cyclic? <==> exists p :: Cycle(rules, p)
    ensures r.Cyclic? ==> exists p :: Cycle(rules, p) && p[0] == r.id
    ensures r.Ok? ==> IsPlan(rules, r.value)
    ensures r.Ok? ==> exists tiers :: TiersFit(rules, tiers) && Grouped(rules, tiers, r.value)
  {
    hide HasTiers, DependencyArcs, ById, OnCycle, GroupsAre, Cycle, TiersFit, Grouped;
    CyclesAreCycles(rules);
    var planning := new Planning(rules);
    var resolved := planning.ResolveAll(rules);
    if resolved.Cyclic? {
      CycleThrough(rules, resolved.id);
      return Cyclic(resolved.id);
    }
    var groups, levels := GroupRules(rules, planning.resolvedTier);
    forall v
      ensures !OnCycle(DependencyArcs(ById(rules)), v)
    {
      PlanMeansNoCycle(rules, planning.resolvedTier, v);
    }
    PlanFits(rules, groups);
    r := Ok(groups);
  }
}
