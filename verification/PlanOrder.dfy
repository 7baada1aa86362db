/** What a plan says of the rules as they were given: the declared order of the
    categories, and the dependencies, decide which rule runs before which. */
module PlanOrder {
  import opened Collections
  import opened Paths
  import opened Planner

  /** The declared order of the categories. Any other category runs with the first. */
  const CATEGORY_ORDER: seq<set<string>> := [
    {"A_ast_only", "F_preprocessor"},
    {"B_type_system"},
    {"C_control_flow"},
    {"D_data_flow"},
    {"E_cross_translation_unit", "G_configuration_build"}
  ]

  /** The place of a category in that order. */
  ghost predicate StandsAt(category: string, k: int)
  {
    && 0 <= k < |CATEGORY_ORDER|
    && (category in CATEGORY_ORDER[k] || (k == 0 && forall j :: 0 <= j < |CATEGORY_ORDER| ==> category !in CATEGORY_ORDER[j]))
  }

  lemma TierIsPlace(category: string, k: int)
    ensures StandsAt(category, k) <==> k == CategoryTier(category)
  {
    assert category in CATEGORY_ORDER[0] ==> CategoryTier(category) == 0;
    if StandsAt(category, k) && k == 0 && category !in CATEGORY_ORDER[0] {
      assert category !in CATEGORY_ORDER[1] && category !in CATEGORY_ORDER[2] && category !in CATEGORY_ORDER[3]
        && category !in CATEGORY_ORDER[4];
    }
  }

  /** One of the given rules has the id. */
  ghost predicate Given(rules: seq<Rule>, id: string)
  {
    exists r :: r in rules && r.id == id
  }

  /** The id stands for the last rule given with it. */
  ghost predicate StandsFor(rules: seq<Rule>, id: string, i: int)
  {
    0 <= i < |rules| && rules[i].id == id && forall j :: i < j < |rules| ==> rules[j].id != id
  }

  lemma {:induction false} LookedUp(rules: seq<Rule>, id: string)
    ensures id in ById(rules) <==> Given(rules, id)
    ensures id in ById(rules) ==> exists i :: StandsFor(rules, id, i)
    ensures forall i :: StandsFor(rules, id, i) ==> id in ById(rules) && ById(rules)[id] == rules[i]
  {
    if rules != [] {
      var n := |rules| - 1;
      var front := rules[..n];
      LookedUp(front, id);
      assert rules == front + [rules[n]] && rules[n] in rules;
      if rules[n].id == id {
        assert StandsFor(rules, id, n);
      } else {
        forall i
          ensures StandsFor(rules, id, i) <==> StandsFor(front, id, i)
        {
          if StandsFor(front, id, i) {
            assert rules[i] == front[i];
          }
        }
      }
    }
  }

  /** The tier of a rule: the place of its category, or one more than the tier of
      a given rule it depends on, whichever is largest. */
  ghost predicate TierFits(rules: seq<Rule>, tiers: map<string, int>, r: Rule)
  {
    && r.id in tiers
    && (forall k :: StandsAt(r.category, k) ==> k <= tiers[r.id])
    && (forall d :: d in r.dependencies && Given(rules, d) ==> d in tiers && tiers[d] < tiers[r.id])
    && (StandsAt(r.category, tiers[r.id])
        || exists d :: d in r.dependencies && Given(rules, d) && d in tiers && tiers[d] + 1 == tiers[r.id])
  }

  ghost predicate TiersFit(rules: seq<Rule>, tiers: map<string, int>)
  {
    forall id, i :: StandsFor(rules, id, i) ==> TierFits(rules, tiers, rules[i])
  }

  /** The members are some of the rules, in the order in which they were given. */
  ghost predicate InOrder(group: seq<Rule>, rules: seq<Rule>)
  {
    exists at: seq<int> ::
      && |at| == |group| && (forall k :: 0 <= k < |at| ==> 0 <= at[k] < |rules| && group[k] == rules[at[k]])
      && forall k, l :: 0 <= k < l < |at| ==> at[k] < at[l]
  }

  /** Every rule is in the groups as often as it was given; a group holds rules of
      one tier in the order they were given, and groups of lower tiers come first. */
  ghost predicate Grouped(rules: seq<Rule>, tiers: map<string, int>, groups: seq<seq<Rule>>)
  {
    && multiset(Flatten(groups)) == multiset(rules)
    && (forall i :: 0 <= i < |groups| ==> groups[i] != [] && InOrder(groups[i], rules))
    && (forall i, j, x, y :: 0 <= i < |groups| && 0 <= j < |groups| && x in groups[i] && y in groups[j] ==>
          x.id in tiers && y.id in tiers && (i < j <==> tiers[x.id] < tiers[y.id]))
  }

  lemma WeightOfOne(byId: Rules, id: string, p: seq<string>, t: int)
    requires Chain(byId, p, id) && Weight(byId, p) == t && |p| == 1
    ensures Base(byId, id) == t
  {
  }

  lemma DependencyArc(byId: Rules, id: string, d: string)
    requires id in byId && d in byId[id].dependencies && d in byId
    ensures (id, d) in DependencyArcs(byId)
  {
  }

  lemma ArcNeeds(byId: Rules, id: string, d: string)
    requires (id, d) in DependencyArcs(byId)
    ensures id in byId && d in byId[id].dependencies && d in byId
  {
  }

  lemma TiersAreFit(rules: seq<Rule>, tiers: map<string, int>)
    requires HasTiers(ById(rules), tiers) && forall x :: x in rules ==> x.id in tiers
    ensures TiersFit(rules, tiers)
  {
    hide ById, StandsAt, TierIs, HasTiers;
    forall id, i | StandsFor(rules, id, i)
      ensures TierFits(rules, tiers, rules[i])
    {
      TierIsFit(rules, tiers, id, i);
    }
  }

  lemma TierIsFit(rules: seq<Rule>, tiers: map<string, int>, id: string, i: int)
    requires HasTiers(ById(rules), tiers) && (forall x :: x in rules ==> x.id in tiers) && StandsFor(rules, id, i)
    ensures TierFits(rules, tiers, rules[i])
  {
    hide ById, StandsAt, TierIs, Weight, CategoryTier, DependencyArcs;
    var byId, r := ById(rules), rules[i];
    LookedUp(rules, id);
    var t := tiers[id];
    assert TierIs(byId, id, t);
    TierParts(byId, id, t);
    forall k
      ensures StandsAt(r.category, k) <==> k == Base(byId, id)
    {
      TierIsPlace(r.category, k);
    }
    forall d | d in r.dependencies && Given(rules, d)
      ensures d in byId && d in tiers && TierIs(byId, d, tiers[d]) && tiers[d] < t
    {
      LookedUp(rules, d);
      assert d in byId;
      DependencyArc(byId, id, d);
      TierDrops(byId, id, d, t, tiers[d]);
    }
    var p :| Chain(byId, p, id) && Weight(byId, p) == t;
    ChainHead(byId, p, id);
    if |p| == 1 {
      WeightOfOne(byId, id, p, t);
    } else {
      ChainRest(byId, p, id);
      var d := p[1];
      ArcNeeds(byId, id, d);
      LookedUp(rules, d);
      TierAbove(byId, p[1..], d, tiers[d]);
      assert tiers[d] + 1 == t;
    }
  }

  lemma ChainHead(byId: Rules, p: seq<string>, id: string)
    requires Chain(byId, p, id)
    ensures |p| > 0
  {
  }

  lemma TierParts(byId: Rules, id: string, t: int)
    requires TierIs(byId, id, t)
    ensures exists p :: Chain(byId, p, id) && Weight(byId, p) == t
    ensures Base(byId, id) <= t
  {
    ChainStart(byId, id);
  }

  lemma TierAbove(byId: Rules, p: seq<string>, d: string, t: int)
    requires Chain(byId, p, d) && TierIs(byId, d, t)
    ensures Weight(byId, p) <= t
  {
  }

  lemma {:induction false} OfTierInOrder(rules: seq<Rule>, tiers: map<string, int>, t: int)
    requires forall x :: x in rules ==> x.id in tiers
    ensures InOrder(OfTier(rules, tiers, t), rules)
  {
    if rules == [] {
      var at: seq<int> := [];
      assert |at| == |OfTier(rules, tiers, t)|;
    } else {
      var n := |rules| - 1;
      assert rules[n] in rules && rules == rules[..n] + [rules[n]];
      OfTierInOrder(rules[..n], tiers, t);
      var front := OfTier(rules[..n], tiers, t);
      var at: seq<int> :| |at| == |front| && (forall k :: 0 <= k < |at| ==> 0 <= at[k] < n && front[k] == rules[..n][at[k]])
        && forall k, l :: 0 <= k < l < |at| ==> at[k] < at[l];
      OneMoreInOrder(rules, front, at, if tiers[rules[n].id] == t then [n] else []);
    }
  }

  lemma OneMoreInOrder(rules: seq<Rule>, front: seq<Rule>, at: seq<int>, last: seq<int>)
    requires rules != [] && |at| == |front| && (last == [] || last == [|rules| - 1])
    requires forall k :: 0 <= k < |at| ==> 0 <= at[k] < |rules| - 1 && front[k] == rules[at[k]]
    requires forall k, l :: 0 <= k < l < |at| ==> at[k] < at[l]
    ensures InOrder(front + (if last == [] then [] else [rules[|rules| - 1]]), rules)
  {
    var all := at + last;
    assert |all| == |front + (if last == [] then [] else [rules[|rules| - 1]])|;
  }

  /** A plan gives every rule the tier that its category and its dependencies
      prescribe, and groups the rules by tier. */
  lemma PlanFits(rules: seq<Rule>, groups: seq<seq<Rule>>)
    requires IsPlan(rules, groups)
    ensures exists tiers :: TiersFit(rules, tiers) && Grouped(rules, tiers, groups)
  {
    hide ById, HasTiers, OfTier, Flatten, TiersFit, InOrder, Grouped;
    GroupsPartition(rules, groups);
    var tiers: map<string, int>, levels :| (forall x :: x in rules ==> x.id in tiers) &&
      HasTiers(ById(rules), tiers) && GroupsAre(rules, tiers, groups, levels);
    TiersAreFit(rules, tiers);
    forall i | 0 <= i < |groups|
      ensures groups[i] != [] && InOrder(groups[i], rules)
    {
      OfTierInOrder(rules, tiers, levels[i]);
    }
    LevelsGroup(rules, tiers, groups, levels);
  }

  lemma LevelsOrder(levels: seq<int>)
    requires Increasing(levels)
    ensures forall i, j :: 0 <= i < |levels| && 0 <= j < |levels| ==> (i < j <==> levels[i] < levels[j])
  {
    forall i, j | 0 <= i < |levels| && 0 <= j < |levels|
      ensures i < j <==> levels[i] < levels[j]
    {
      assert j < i ==> levels[j] < levels[i];
    }
  }

  lemma LevelsGroup(rules: seq<Rule>, tiers: map<string, int>, groups: seq<seq<Rule>>, levels: seq<int>)
    requires (forall x :: x in rules ==> x.id in tiers) && GroupsAre(rules, tiers, groups, levels)
    requires multiset(Flatten(groups)) == multiset(rules)
    requires forall i :: 0 <= i < |groups| ==> groups[i] != [] && InOrder(groups[i], rules)
    ensures Grouped(rules, tiers, groups)
  {
    hide OfTier, Flatten, InOrder, Increasing;
    forall i, x | 0 <= i < |groups| && x in groups[i]
      ensures x.id in tiers && tiers[x.id] == levels[i]
    {
      assert groups[i] == OfTier(rules, tiers, levels[i]);
    }
    hide GroupsAre;
    assert |levels| == |groups| && Increasing(levels) by {
      assert GroupsAre(rules, tiers, groups, levels);
    }
    LevelsOrder(levels);
  }

  // ----- Rules without dependencies -----

  /** The category comes strictly earlier in the declared order. */
  ghost predicate Earlier(c: string, d: string)
  {
    exists k, l :: StandsAt(c, k) && StandsAt(d, l) && k < l
  }

  lemma AloneInTier(rules: seq<Rule>, tiers: map<string, int>, i: int)
    requires TiersFit(rules, tiers) && 0 <= i < |rules| && StandsFor(rules, rules[i].id, i)
    requires forall d :: d in rules[i].dependencies ==> !Given(rules, d)
    ensures rules[i].id in tiers && StandsAt(rules[i].category, tiers[rules[i].id])
  {
    hide StandsAt, Given;
    assert TierFits(rules, tiers, rules[i]);
  }

  /** Rules that depend on none of the given ones are ordered by category alone. */
  lemma CategoriesOrderGroups(rules: seq<Rule>, groups: seq<seq<Rule>>, a: int, b: int, i: nat, j: nat)
    requires IsPlan(rules, groups)
    requires 0 <= a < |rules| && StandsFor(rules, rules[a].id, a) && forall d :: d in rules[a].dependencies ==> !Given(rules, d)
    requires 0 <= b < |rules| && StandsFor(rules, rules[b].id, b) && forall d :: d in rules[b].dependencies ==> !Given(rules, d)
    requires i < |groups| && j < |groups| && rules[a] in groups[i] && rules[b] in groups[j]
    ensures i < j <==> Earlier(rules[a].category, rules[b].category)
    ensures i == j <==> exists k :: StandsAt(rules[a].category, k) && StandsAt(rules[b].category, k)
  {
    hide IsPlan, StandsAt, TiersFit, Flatten, InOrder, Given, StandsFor;
    PlanFits(rules, groups);
    var tiers :| TiersFit(rules, tiers) && Grouped(rules, tiers, groups);
    AloneInTier(rules, tiers, a);
    AloneInTier(rules, tiers, b);
    forall k
      ensures StandsAt(rules[a].category, k) <==> k == tiers[rules[a].id]
      ensures StandsAt(rules[b].category, k) <==> k == tiers[rules[b].id]
    {
      TierIsPlace(rules[a].category, k);
      TierIsPlace(rules[b].category, k);
      TierIsPlace(rules[a].category, tiers[rules[a].id]);
      TierIsPlace(rules[b].category, tiers[rules[b].id]);
    }
  }

  // ----- Cycles -----

  /** The rule with that id depends on the other, which is given as well. */
  ghost predicate Needs(rules: seq<Rule>, id: string, d: string)
  {
    Given(rules, d) && exists i :: StandsFor(rules, id, i) && d in rules[i].dependencies
  }

  /** Each rule depends on the next, and the last is the first. */
  ghost predicate Cycle(rules: seq<Rule>, p: seq<string>)
  {
    |p| > 1 && p[0] == p[|p| - 1] && forall k :: 0 < k < |p| ==> Needs(rules, p[k - 1], p[k])
  }

  lemma ArcIsNeed(rules: seq<Rule>, x: string, y: string)
    ensures (x, y) in DependencyArcs(ById(rules)) <==> Needs(rules, x, y)
  {
    hide ById;
    LookedUp(rules, x);
    LookedUp(rules, y);
  }

  lemma LoopIsCycle(rules: seq<Rule>, p: seq<string>)
    ensures |p| > 1 && WalkFromTo(DependencyArcs(ById(rules)), p, p[0], p[0]) <==> Cycle(rules, p)
  {
    hide ById, DependencyArcs, Needs;
    forall x, y
      ensures (x, y) in DependencyArcs(ById(rules)) <==> Needs(rules, x, y)
    {
      ArcIsNeed(rules, x, y);
    }
  }

  lemma CycleThrough(rules: seq<Rule>, id: string)
    requires OnCycle(DependencyArcs(ById(rules)), id)
    ensures exists p :: Cycle(rules, p) && p[0] == id
  {
    hide ById, DependencyArcs, Needs;
    var p :| WalkFromTo(DependencyArcs(ById(rules)), p, id, id) && |p| > 1;
    LoopIsCycle(rules, p);
    assert Cycle(rules, p) && p[0] == id;
  }

  lemma CyclesAreCycles(rules: seq<Rule>)
    ensures (exists v :: OnCycle(DependencyArcs(ById(rules)), v)) <==> exists p :: Cycle(rules, p)
  {
    hide ById, DependencyArcs, Cycle;
    var arcs := DependencyArcs(ById(rules));
    if v :| OnCycle(arcs, v) {
      var p :| WalkFromTo(arcs, p, v, v) && |p| > 1;
      LoopIsCycle(rules, p);
      assert Cycle(rules, p);
    }
    if p :| Cycle(rules, p) {
      LoopIsCycle(rules, p);
      assert OnCycle(arcs, p[0]);
    }
  }
}
