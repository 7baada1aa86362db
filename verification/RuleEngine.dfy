/** Running rules wave by wave: retries, collection in any completion order,
    and removal of duplicate findings. */
module RuleEngine {

  import opened Planner
  import opened PlanOrder
  import opened ExecutionPlanning
  import opened Paths

  /** A finding; the fingerprint is an opaque digest of part of it. */
  datatype Violation = Violation(fingerprint: string, detail: string)

  /** What one attempt at detection gives. */
  datatype Detection = Found(violations: seq<Violation>) | Raised(message: string)

  datatype Metrics = Metrics(ruleId: string, violationCount: nat, success: bool, error: string)

  datatype Report = Report(violations: seq<Violation>, metrics: seq<Metrics>, deduplicatedCount: nat)

  /** Attempts are numbered from 0; a detector may fail at first and succeed later. */
  type Detector = (Rule, nat) -> Detection

  // ----- One rule, with retries -----

  /** The number of the first successful attempt among the first `n`, else `n`. */
  function FirstSuccess(detect: Detector, rule: Rule, n: nat): (k: nat)
    ensures k <= n
    ensures k < n ==> detect(rule, k).Found?
    ensures forall j :: 0 <= j < k ==> detect(rule, j).Raised?
  {
    if n == 0 then 0 else
      var k := FirstSuccess(detect, rule, n - 1);
      if k < n - 1 || detect(rule, n - 1).Found? then k else n
  }

  /** One attempt and `maxRetries` more; none when `maxRetries` is negative. */
  function Attempts(maxRetries: int): nat
  {
    if maxRetries < 0 then 0 else maxRetries + 1
  }

  function Violations(detect: Detector, maxRetries: int, rule: Rule): seq<Violation>
  {
    var k := FirstSuccess(detect, rule, Attempts(maxRetries));
    if k < Attempts(maxRetries) then detect(rule, k).violations else []
  }

  /** Attempt `k` is allowed and is the first that succeeds. */
  ghost predicate Succeeds(detect: Detector, maxRetries: int, rule: Rule, k: int)
  {
    0 <= k <= maxRetries && detect(rule, k).Found? && forall j: nat :: j < k ==> detect(rule, j).Raised?
  }

  /** The metrics of one run: of the first attempt that succeeds, without an
      error, or of a failure with the last error, which is never empty. */
  ghost predicate MetricsFit(detect: Detector, maxRetries: int, rule: Rule, m: Metrics)
  {
    && m.ruleId == rule.id
    && (m.success <==> exists k: nat :: k <= maxRetries && detect(rule, k).Found?)
    && (m.success ==> m.error == "" && exists k: nat :: Succeeds(detect, maxRetries, rule, k)
                                                        && m.violationCount == |detect(rule, k).violations|)
    && (!m.success ==> m.violationCount == 0)
    && (!m.success && maxRetries < 0 ==> m.error == "unknown rule failure")
    && (!m.success && maxRetries >= 0 ==>
          && detect(rule, maxRetries).Raised?
          && m.error == if detect(rule, maxRetries).message == "" then "unknown rule failure" else detect(rule, maxRetries).message)
  }

  lemma FirstSucceeds(detect: Detector, maxRetries: int, rule: Rule, k: nat)
    requires Succeeds(detect, maxRetries, rule, k)
    ensures Violations(detect, maxRetries, rule) == detect(rule, k).violations
  {
    var first := FirstSuccess(detect, rule, Attempts(maxRetries));
    assert first >= k;
    assert first <= k;
  }

  lemma NoneSucceeds(detect: Detector, maxRetries: int, rule: Rule)
    requires forall k: nat :: k <= maxRetries ==> detect(rule, k).Raised?
    ensures Violations(detect, maxRetries, rule) == []
  {
  }

  method ExecuteRuleSafe(detect: Detector, maxRetries: int, rule: Rule) returns (m: Metrics, vs: seq<Violation>)
    ensures MetricsFit(detect, maxRetries, rule, m)
    ensures m.success ==> exists k: nat :: Succeeds(detect, maxRetries, rule, k) && vs == detect(rule, k).violations
    ensures !m.success ==> vs == []
    ensures vs == Violations(detect, maxRetries, rule)
  {
    var attempts: nat := 0;
    var lastError := "";
    while attempts <= maxRetries
      invariant attempts == 0 || attempts <= maxRetries + 1
      invariant forall j: nat :: j < attempts ==> detect(rule, j).Raised?
      invariant if attempts == 0 then lastError == "" else detect(rule, attempts - 1) == Raised(lastError)
    {
      attempts := attempts + 1;
      match detect(rule, attempts - 1) {
        case Found(found) =>
          assert Succeeds(detect, maxRetries, rule, attempts - 1);
          FirstSucceeds(detect, maxRetries, rule, attempts - 1);
          return Metrics(rule.id, |found|, true, ""), found;
        case Raised(message) =>
          lastError := message;
          if attempts > maxRetries {
            break;
          }
      }
    }
    NoneSucceeds(detect, maxRetries, rule);
    return Metrics(rule.id, 0, false, if lastError == "" then "unknown rule failure" else lastError), [];
  }

  // ----- Duplicates -----

  function Prints(vs: seq<Violation>): set<string>
  {
    set v | v in vs :: v.fingerprint
  }

  /** The findings no earlier finding shares its fingerprint with. */
  function Firsts(vs: seq<Violation>): seq<Violation>
  {
    if vs == [] then [] else
      var n := |vs| - 1;
      Firsts(vs[..n]) + (if vs[n].fingerprint in Prints(vs[..n]) then [] else [vs[n]])
  }

  ghost predicate DistinctPrints(vs: seq<Violation>)
  {
    forall i, j :: 0 <= i < j < |vs| ==> vs[i].fingerprint != vs[j].fingerprint
  }

  lemma PrintsSnoc(vs: seq<Violation>, v: Violation)
    ensures Prints(vs + [v]) == Prints(vs) + {v.fingerprint}
  {
    assert v in vs + [v];
  }

  lemma DistinctSnoc(vs: seq<Violation>, v: Violation)
    requires DistinctPrints(vs) && v.fingerprint !in Prints(vs)
    ensures DistinctPrints(vs + [v])
  {
    forall i | 0 <= i < |vs|
      ensures vs[i].fingerprint != v.fingerprint
    {
      assert vs[i].fingerprint in Prints(vs);
    }
  }

  /** One finding per fingerprint remains, and no fingerprint is lost. */
  lemma {:induction false} FirstsKeepPrints(vs: seq<Violation>)
    ensures Prints(Firsts(vs)) == Prints(vs) && DistinctPrints(Firsts(vs)) && |Firsts(vs)| == |Prints(vs)|
  {
    if vs != [] {
      hide Prints, DistinctPrints;
      var n := |vs| - 1;
      FirstsKeepPrints(vs[..n]);
      assert vs == vs[..n] + [vs[n]];
      PrintsSnoc(vs[..n], vs[n]);
      if vs[n].fingerprint in Prints(vs[..n]) {
        assert Prints(vs[..n]) + {vs[n].fingerprint} == Prints(vs[..n]);
        assert Firsts(vs) == Firsts(vs[..n]);
      } else {
        PrintsSnoc(Firsts(vs[..n]), vs[n]);
        DistinctSnoc(Firsts(vs[..n]), vs[n]);
      }
    }
  }

  /** The findings at rising positions, those where a fingerprint comes up first. */
  ghost predicate KeepsFirsts(vs: seq<Violation>, unique: seq<Violation>, at: seq<nat>)
  {
    && |at| == |unique|
    && (forall k :: 0 <= k < |at| ==> at[k] < |vs| && unique[k] == vs[at[k]])
    && (forall k, l :: 0 <= k < l < |at| ==> at[k] < at[l])
    && (forall i: nat :: i < |vs| ==> (i in at <==> forall j :: 0 <= j < i ==> vs[j].fingerprint != vs[i].fingerprint))
  }

  lemma FirstsSnoc(vs: seq<Violation>, v: Violation, unique: seq<Violation>, at: seq<nat>)
    requires KeepsFirsts(vs, unique, at)
    ensures v.fingerprint in Prints(vs) ==> KeepsFirsts(vs + [v], unique, at)
    ensures v.fingerprint !in Prints(vs) ==> KeepsFirsts(vs + [v], unique + [v], at + [|vs|])
  {
    var more := vs + [v];
    assert forall i :: 0 <= i < |vs| ==> more[i] == vs[i];
    forall i: nat | i < |more|
      ensures (forall j :: 0 <= j < i ==> more[j].fingerprint != more[i].fingerprint)
        <==> if i < |vs| then i in at else v.fingerprint !in Prints(vs)
    {
      if i < |vs| {
        assert (forall j :: 0 <= j < i ==> more[j].fingerprint != more[i].fingerprint)
          <==> forall j :: 0 <= j < i ==> vs[j].fingerprint != vs[i].fingerprint;
      } else {
        FreshPrint(vs, v);
      }
    }
    assert |vs| !in at;
  }

  lemma FreshPrint(vs: seq<Violation>, v: Violation)
    ensures v.fingerprint !in Prints(vs) <==> forall j :: 0 <= j < |vs| ==> vs[j].fingerprint != v.fingerprint
  {
    forall j | 0 <= j < |vs|
      ensures vs[j].fingerprint in Prints(vs)
    {
      assert vs[j] in vs;
    }
  }

  method Deduplicate(vs: seq<Violation>) returns (unique: seq<Violation>, removed: nat)
    ensures exists at :: KeepsFirsts(vs, unique, at)
    ensures removed == |vs| - |unique|
    ensures unique == Firsts(vs) && removed == |vs| - |Prints(vs)|
    ensures DistinctPrints(unique) && Prints(unique) == Prints(vs)
  {
    var seen: set<string> := {};
    unique, removed := [], 0;
    for i := 0 to |vs|
      invariant seen == Prints(vs[..i])
      invariant unique == Firsts(vs[..i]) && removed == i - |unique|
    {
      assert vs[..i + 1] == vs[..i] + [vs[i]];
      PrintsSnoc(vs[..i], vs[i]);
      assert vs[..i + 1][..i] == vs[..i];
      if vs[i].fingerprint in seen {
        assert seen + {vs[i].fingerprint} == seen;
        removed := removed + 1;
      } else {
        seen := seen + {vs[i].fingerprint};
        unique := unique + [vs[i]];
      }
    }
    assert vs[..|vs|] == vs;
    FirstsKeepPrints(vs);
    ghost var at := FirstsAreFirst(vs);
  }

  lemma {:induction false} FirstsAreFirst(vs: seq<Violation>) returns (at: seq<nat>)
    ensures KeepsFirsts(vs, Firsts(vs), at)
  {
    if vs == [] {
      at := [];
    } else {
      hide KeepsFirsts;
      var n := |vs| - 1;
      at := FirstsAreFirst(vs[..n]);
      assert vs == vs[..n] + [vs[n]];
      FirstsSnoc(vs[..n], vs[n], Firsts(vs[..n]), at);
      if vs[n].fingerprint in Prints(vs[..n]) {
        assert Firsts(vs) == Firsts(vs[..n]);
      } else {
        at := at + [n];
      }
    }
  }

  // ----- Order does not matter -----

  function Gather<A>(f: A -> seq<Violation>, xs: seq<A>): seq<Violation>
  {
    if xs == [] then [] else Gather(f, xs[..|xs| - 1]) + f(xs[|xs| - 1])
  }

  lemma {:induction false} GatherConcat<A>(f: A -> seq<Violation>, a: seq<A>, b: seq<A>)
    ensures Gather(f, a + b) == Gather(f, a) + Gather(f, b)
  {
    if b == [] {
      assert a + b == a;
    } else {
      var n := |b| - 1;
      assert (a + b)[..|a| + n] == a + b[..n];
      GatherConcat(f, a, b[..n]);
    }
  }

  /** Taking the last member of one sequence out of a rearrangement of it. */
  lemma TakeOut<A>(a: seq<A>, b: seq<A>) returns (c: seq<A>, d: seq<A>)
    requires a != [] && multiset(a) == multiset(b)
    ensures b == c + [a[|a| - 1]] + d && multiset(a[..|a| - 1]) == multiset(c + d)
  {
    var n := |a| - 1;
    var x := a[n];
    assert a == a[..n] + [x];
    assert x in multiset(b);
    var i :| 0 <= i < |b| && b[i] == x;
    c, d := b[..i], b[i + 1..];
    assert b == c + [x] + d;
    assert multiset(a) == multiset(a[..n]) + multiset{x};
    assert multiset(b) == multiset(c + d) + multiset{x};
    assert multiset(a[..n]) == multiset(a) - multiset{x};
  }

  /** Rearranging the runs rearranges the findings. */
  lemma {:induction false} GatherPermuted<A>(f: A -> seq<Violation>, a: seq<A>, b: seq<A>)
    requires multiset(a) == multiset(b)
    ensures multiset(Gather(f, a)) == multiset(Gather(f, b))
    decreases |a|
  {
    if a == [] {
      assert |multiset(b)| == 0;
    } else {
      var c, d := TakeOut(a, b);
      var x := a[|a| - 1];
      GatherPermuted(f, a[..|a| - 1], c + d);
      GatherAround(f, c, x, d);
    }
  }

  lemma GatherAround<A>(f: A -> seq<Violation>, c: seq<A>, x: A, d: seq<A>)
    ensures multiset(Gather(f, c + [x] + d)) == multiset(Gather(f, c + d)) + multiset(f(x))
  {
    GatherConcat(f, c, d);
    GatherConcat(f, c + [x], d);
    assert (c + [x])[..|c|] == c;
  }

  lemma PrintsPermuted(a: seq<Violation>, b: seq<Violation>)
    requires multiset(a) == multiset(b)
    ensures Prints(a) == Prints(b) && |a| == |b|
  {
    assert |multiset(a)| == |multiset(b)|;
    assert forall v :: v in a <==> v in multiset(a);
    assert forall v :: v in b <==> v in multiset(b);
  }

  // ----- The engine -----

  /** All findings of all rules, taken in the order the rules are listed. */
  ghost function AllViolations(detect: Detector, maxRetries: int, rules: seq<Rule>): seq<Violation>
  {
    Gather(rule => Violations(detect, maxRetries, rule), rules)
  }

  /** One entry for each run, in the order the runs completed. */
  ghost predicate MetricsMatch(detect: Detector, maxRetries: int, ran: seq<Rule>, ms: seq<Metrics>)
  {
    |ms| == |ran| && forall i :: 0 <= i < |ran| ==> MetricsFit(detect, maxRetries, ran[i], ms[i])
  }

  /** What every schedule must report: one finding for each fingerprint any
      rule produces, the number of the others, and metrics for each rule. */
  ghost predicate ReportFits(detect: Detector, maxRetries: int, rules: seq<Rule>, r: Report)
  {
    var all := AllViolations(detect, maxRetries, rules);
    && DistinctPrints(r.violations) && Prints(r.violations) == Prints(all)
    && (forall v :: v in r.violations ==> v in all)
    && r.deduplicatedCount == |all| - |Prints(all)|
    && exists ran :: multiset(ran) == multiset(rules) && MetricsMatch(detect, maxRetries, ran, r.metrics)
  }

  /** Some run of a listed rule gives the finding. */
  ghost predicate Finds(detect: Detector, maxRetries: int, rules: seq<Rule>, v: Violation)
  {
    exists i :: 0 <= i < |rules| && Gives(detect, maxRetries, rules[i], v)
  }

  ghost predicate Gives(detect: Detector, maxRetries: int, rule: Rule, v: Violation)
  {
    exists k: nat :: Succeeds(detect, maxRetries, rule, k) && v in detect(rule, k).violations
  }

  ghost function Counted(ms: seq<Metrics>): nat
  {
    if ms == [] then 0 else Counted(ms[..|ms| - 1]) + ms[|ms| - 1].violationCount
  }

  /** The report says what the runs found: no fingerprint twice, nothing that no
      run gave, something for whatever a run gave, and the rest counted. */
  ghost predicate ReportTells(detect: Detector, maxRetries: int, rules: seq<Rule>, r: Report)
  {
    && (forall i, j :: 0 <= i < j < |r.violations| ==> r.violations[i].fingerprint != r.violations[j].fingerprint)
    && (forall v :: v in r.violations ==> Finds(detect, maxRetries, rules, v))
    && (forall v :: Finds(detect, maxRetries, rules, v) ==>
          exists u :: u in r.violations && u.fingerprint == v.fingerprint)
    && |r.violations| + r.deduplicatedCount == Counted(r.metrics)
    && exists ran :: multiset(ran) == multiset(rules) && MetricsMatch(detect, maxRetries, ran, r.metrics)
  }

  lemma GivesIsViolation(detect: Detector, maxRetries: int, rule: Rule, v: Violation)
    ensures Gives(detect, maxRetries, rule, v) <==> v in Violations(detect, maxRetries, rule)
  {
    var n := Attempts(maxRetries);
    var first := FirstSuccess(detect, rule, n);
    if first < n {
      assert Succeeds(detect, maxRetries, rule, first);
    }
    if k: nat :| Succeeds(detect, maxRetries, rule, k) && v in detect(rule, k).violations {
      FirstSucceeds(detect, maxRetries, rule, k);
    }
  }

  lemma {:induction false} FindsIsGathered(detect: Detector, maxRetries: int, rules: seq<Rule>, v: Violation)
    ensures Finds(detect, maxRetries, rules, v) <==> v in AllViolations(detect, maxRetries, rules)
  {
    hide Gives, Violations;
    if rules != [] {
      var n := |rules| - 1;
      FindsIsGathered(detect, maxRetries, rules[..n], v);
      GivesIsViolation(detect, maxRetries, rules[n], v);
      if i :| 0 <= i < |rules| && Gives(detect, maxRetries, rules[i], v) {
        assert i < n ==> rules[..n][i] == rules[i];
      }
      if i :| 0 <= i < n && Gives(detect, maxRetries, rules[..n][i], v) {
        assert rules[i] == rules[..n][i];
      }
    }
  }

  lemma MetricsCount(detect: Detector, maxRetries: int, rule: Rule, m: Metrics)
    requires MetricsFit(detect, maxRetries, rule, m)
    ensures m.violationCount == |Violations(detect, maxRetries, rule)|
  {
    if m.success {
      var k: nat :| Succeeds(detect, maxRetries, rule, k) && m.violationCount == |detect(rule, k).violations|;
      FirstSucceeds(detect, maxRetries, rule, k);
    } else {
      NoneSucceeds(detect, maxRetries, rule);
    }
  }

  lemma {:induction false} CountedAll(detect: Detector, maxRetries: int, ran: seq<Rule>, ms: seq<Metrics>)
    requires MetricsMatch(detect, maxRetries, ran, ms)
    ensures Counted(ms) == |AllViolations(detect, maxRetries, ran)|
  {
    hide MetricsFit, Violations;
    if ran != [] {
      var n := |ran| - 1;
      CountedAll(detect, maxRetries, ran[..n], ms[..n]);
      MetricsCount(detect, maxRetries, ran[n], ms[n]);
    }
  }

  lemma FitTells(detect: Detector, maxRetries: int, rules: seq<Rule>, r: Report, ran: seq<Rule>)
    requires ReportFits(detect, maxRetries, rules, r)
    requires multiset(ran) == multiset(rules) && MetricsMatch(detect, maxRetries, ran, r.metrics)
    requires |AllViolations(detect, maxRetries, ran)| == |AllViolations(detect, maxRetries, rules)|
    ensures ReportTells(detect, maxRetries, rules, r)
  {
    hide Finds, AllViolations, MetricsFit;
    var all := AllViolations(detect, maxRetries, rules);
    forall v
      ensures Finds(detect, maxRetries, rules, v) <==> v in all
    {
      FindsIsGathered(detect, maxRetries, rules, v);
    }
    forall v | v in all
      ensures exists u :: u in r.violations && u.fingerprint == v.fingerprint
    {
      assert v.fingerprint in Prints(all);
      assert v.fingerprint in Prints(r.violations);
    }
    CountedAll(detect, maxRetries, ran, r.metrics);
    PrintsCounted(r.violations);
  }

  lemma {:induction false} PrintsCounted(vs: seq<Violation>)
    requires DistinctPrints(vs)
    ensures |Prints(vs)| == |vs|
  {
    if vs != [] {
      var n := |vs| - 1;
      PrintsCounted(vs[..n]);
      assert vs == vs[..n] + [vs[n]];
      PrintsSnoc(vs[..n], vs[n]);
      FreshPrint(vs[..n], vs[n]);
    }
  }

  lemma {:induction false} FirstsAmong(vs: seq<Violation>)
    ensures forall v :: v in Firsts(vs) ==> v in vs
  {
    if vs != [] {
      FirstsAmong(vs[..|vs| - 1]);
    }
  }

  lemma FitsWhenPermuted(detect: Detector, maxRetries: int, rules: seq<Rule>, ran: seq<Rule>, found: seq<Violation>,
                         ms: seq<Metrics>, removed: nat)
    requires multiset(ran) == multiset(rules) && found == AllViolations(detect, maxRetries, ran)
    requires MetricsMatch(detect, maxRetries, ran, ms)
    requires removed == |found| - |Prints(found)|
    ensures ReportFits(detect, maxRetries, rules, Report(Firsts(found), ms, removed))
    ensures ReportTells(detect, maxRetries, rules, Report(Firsts(found), ms, removed))
  {
    hide MetricsFit, ReportTells;
    var f := rule => Violations(detect, maxRetries, rule);
    var all := AllViolations(detect, maxRetries, rules);
    assert all == Gather(f, rules) && found == Gather(f, ran);
    GatherPermuted(f, ran, rules);
    PrintsPermuted(found, all);
    FirstsKeepPrints(found);
    FirstsAmong(found);
    assert forall v :: v in found ==> v in multiset(all);
    FitTells(detect, maxRetries, rules, Report(Firsts(found), ms, removed), ran);
  }

  lemma OneMoreRun(detect: Detector, maxRetries: int, ran: seq<Rule>, rule: Rule, ms: seq<Metrics>, m: Metrics)
    requires MetricsMatch(detect, maxRetries, ran, ms) && MetricsFit(detect, maxRetries, rule, m)
    ensures AllViolations(detect, maxRetries, ran + [rule]) ==
      AllViolations(detect, maxRetries, ran) + Violations(detect, maxRetries, rule)
    ensures MetricsMatch(detect, maxRetries, ran + [rule], ms + [m])
  {
    hide Violations, MetricsFit;
    assert (ran + [rule])[..|ran|] == ran;
  }

  class RuleExecutionEngine {
    const maxRetries: int

    constructor (maxRetries: int)
      ensures this.maxRetries == maxRetries
    {
      this.maxRetries := maxRetries;
    }

    /** Runs one wave; the futures complete in whatever order they like. */
    method RunWave(detect: Detector, wave: seq<Rule>, ghost before: seq<Rule>, violations: seq<Violation>, metrics: seq<Metrics>)
      returns (ghost ran: seq<Rule>, vs: seq<Violation>, ms: seq<Metrics>)
      requires violations == AllViolations(detect, maxRetries, before)
      requires MetricsMatch(detect, maxRetries, before, metrics)
      ensures multiset(ran) == multiset(before) + multiset(wave)
      ensures vs == AllViolations(detect, maxRetries, ran) && MetricsMatch(detect, maxRetries, ran, ms)
    {
      hide AllViolations, MetricsMatch, MetricsFit, Violations;
      ran, vs, ms := before, violations, metrics;
      var futures := multiset(wave);
      while futures != multiset{}
        invariant multiset(ran) + futures == multiset(before) + multiset(wave)
        invariant vs == AllViolations(detect, maxRetries, ran) && MetricsMatch(detect, maxRetries, ran, ms)
        decreases |futures|
      {
        var rule :| rule in futures;
        var m, found := ExecuteRuleSafe(detect, maxRetries, rule);
        OneMoreRun(detect, maxRetries, ran, rule, ms, m);
        ran := ran + [rule];
        vs := vs + found;
        ms := ms + [m];
        futures := futures - multiset{rule};
      }
    }

    /** Whatever the completion order, grouped or not, the report fits. */
    method Execute(detect: Detector, rules: seq<Rule>, grouped: bool) returns (r: Result<Report>)
      ensures r.Cyclic? <==> grouped && exists p :: Cycle(rules, p)
      ensures r.Ok? ==> ReportFits(detect, maxRetries, rules, r.value)
      ensures r.Ok? ==> ReportTells(detect, maxRetries, rules, r.value)
    {
      hide IsPlan, Cycle, TiersFit, Grouped, ReportFits, ReportTells, KeepsFirsts;
      var waves := [rules];
      if grouped {
        var plan := ResolveExecutionGroups(rules);
        if plan.Cyclic? {
          return Cyclic(plan.id);
        }
        waves := plan.value;
        GroupsPartition(rules, waves);
      } else {
        assert Flatten([rules]) == rules;
      }
      ghost var ran: seq<Rule> := [];
      var violations: seq<Violation>, metrics: seq<Metrics> := [], [];
      for i := 0 to |waves|
        invariant multiset(ran) == multiset(Flatten(waves[..i]))
        invariant violations == AllViolations(detect, maxRetries, ran) && MetricsMatch(detect, maxRetries, ran, metrics)
      {
        ran, violations, metrics := RunWave(detect, waves[i], ran, violations, metrics);
        assert waves[..i + 1][..i] == waves[..i];
      }
      assert waves[..|waves|] == waves;
      var unique, removed := Deduplicate(violations);
      FitsWhenPermuted(detect, maxRetries, rules, ran, violations, metrics, removed);
      r := Ok(Report(unique, metrics, removed));
    }
  }
}
