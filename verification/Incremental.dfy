/** Incremental reanalysis: which files changed since the last run, and which
    translation units must be analysed again because they include one. */
module Incremental {

  import opened Collections
  import opened Paths
  import SortedNames

  /** File path to content hash. */
  type Hashes = map<string, string>

  datatype FileIndexNode = FileIndexNode(contentHash: string, includeEdges: seq<string>)

  type Index = map<string, FileIndexNode>

  type IncludeGraph = map<string, seq<string>>

  /** Present now, and new or with content that differs. */
  predicate IsNewOrModified(previous: Hashes, current: Index, f: string)
  {
    f in current && (f !in previous || previous[f] != current[f].contentHash)
  }

  /** Added, removed, or present both times with different content. */
  ghost predicate Differs(previous: Hashes, current: Index, f: string)
  {
    IsNewOrModified(previous, current, f) || (f in previous && f !in current)
  }

  method ComputeChangedFiles(previous: Hashes, current: Index) returns (changed: seq<string>)
    ensures forall f :: f in changed <==>
      || (f in current && f !in previous) || (f in previous && f !in current)
      || (f in previous && f in current && previous[f] != current[f].contentHash)
    ensures forall f :: f in changed <==> Differs(previous, current, f)
    ensures NoRepeats(changed)
  {
    changed := [];
    var left := current.Keys;
    while left != {}
      invariant left <= current.Keys
      invariant forall f :: f in changed <==> f !in left && IsNewOrModified(previous, current, f)
      invariant NoRepeats(changed)
      decreases left
    {
      var f :| f in left;
      left := left - {f};
      if IsNewOrModified(previous, current, f) {
        changed := changed + [f];
      }
    }
    left := previous.Keys;
    while left != {}
      invariant left <= previous.Keys
      invariant forall f :: f in changed <==>
        IsNewOrModified(previous, current, f) || (f in previous && f !in current && f !in left)
      invariant NoRepeats(changed)
      decreases left
    {
      var f :| f in left;
      left := left - {f};
      if f !in current {
        changed := changed + [f];
      }
    }
  }

  /** The including file comes first. */
  ghost function IncludeArcs(g: IncludeGraph): set<(string, string)>
  {
    set s, i | s in g && i in g[s] :: (s, i)
  }

  /** The unit includes a changed file, directly, through others, or is one. */
  ghost predicate Includes(g: IncludeGraph, unit: string, changed: seq<string>)
  {
    exists c :: c in changed && Reaches(IncludeArcs(g), unit, c)
  }

  ghost predicate IsReverse(r: map<string, set<string>>, arcs: set<(string, string)>)
  {
    && (forall i, s :: i in r && s in r[i] ==> (s, i) in arcs)
    && (forall a :: a in arcs ==> a.1 in r && a.0 in r[a.1])
  }

  method ReverseGraph(g: IncludeGraph) returns (r: map<string, set<string>>)
    ensures IsReverse(r, IncludeArcs(g))
  {
    r := map[];
    var sources := g.Keys;
    ghost var arcs: set<(string, string)> := {};
    while sources != {}
      invariant sources <= g.Keys
      invariant arcs == set s, i | s in g && s !in sources && i in g[s] :: (s, i)
      invariant IsReverse(r, arcs)
      decreases sources
    {
      var s :| s in sources;
      ghost var before := arcs;
      for k := 0 to |g[s]|
        invariant arcs == before + set i | i in g[s][..k] :: (s, i)
        invariant IsReverse(r, arcs)
      {
        var i := g[s][k];
        assert g[s][..k + 1] == g[s][..k] + [i];
        ghost var was := arcs;
        arcs := arcs + {(s, i)};
        AddReverse(r, was, s, i);
        r := r[i := (if i in r then r[i] else {}) + {s}];
      }
      assert g[s][..|g[s]|] == g[s];
      sources := sources - {s};
    }
    assert arcs == IncludeArcs(g);
  }

  lemma AddReverse(r: map<string, set<string>>, arcs: set<(string, string)>, s: string, i: string)
    requires IsReverse(r, arcs)
    ensures IsReverse(r[i := (if i in r then r[i] else {}) + {s}], arcs + {(s, i)})
  {
  }

  ghost predicate IncludesDirectly(g: IncludeGraph, f: string, i: string)
  {
    f in g && exists k :: 0 <= k < |g[f]| && g[f][k] == i
  }

  /** Each file includes the next. */
  ghost predicate Inclusion(g: IncludeGraph, p: seq<string>)
  {
    |p| > 0 && forall k :: 0 < k < |p| ==> IncludesDirectly(g, p[k - 1], p[k])
  }

  lemma ReachesIsInclusion(g: IncludeGraph, f: string, c: string)
    ensures Reaches(IncludeArcs(g), f, c) <==> exists p :: Inclusion(g, p) && p[0] == f && p[|p| - 1] == c
  {
    forall s, i
      ensures (s, i) in IncludeArcs(g) <==> IncludesDirectly(g, s, i)
    {
    }
    hide IncludeArcs, IncludesDirectly;
    if Reaches(IncludeArcs(g), f, c) {
      var p :| WalkFromTo(IncludeArcs(g), p, f, c);
      assert Inclusion(g, p);
    }
    if p :| Inclusion(g, p) && p[0] == f && p[|p| - 1] == c {
      assert WalkFromTo(IncludeArcs(g), p, f, c);
    }
  }

  lemma IncludesIsInclusion(g: IncludeGraph, f: string, changed: seq<string>)
    ensures Includes(g, f, changed) <==> exists p :: Inclusion(g, p) && p[0] == f && p[|p| - 1] in changed
  {
    hide Reaches, IncludeArcs;
    if Includes(g, f, changed) {
      var c :| c in changed && Reaches(IncludeArcs(g), f, c);
      ReachesIsInclusion(g, f, c);
    }
    if p: seq<string> :| |p| > 0 && Inclusion(g, p) && p[0] == f && p[|p| - 1] in changed {
      var c := p[|p| - 1];
      ReachesIsInclusion(g, f, c);
      assert Reaches(IncludeArcs(g), f, c);
    }
  }

  /** The worklist may hold a file several times, and the includes may form
      cycles; still exactly the units that include a changed file come out. */
  method ComputeAffectedTranslationUnits(changed: seq<string>, g: IncludeGraph, units: seq<string>)
    returns (affected: seq<string>)
    ensures SortedNames.Ascending(affected)
    ensures forall f :: f in affected <==>
      f in units && exists p :: Inclusion(g, p) && p[0] == f && p[|p| - 1] in changed
    ensures forall f :: f in affected <==> f in units && Includes(g, f, changed)
  {
    hide Includes, IncludeArcs, IsReverse;
    ghost var arcs := IncludeArcs(g);
    var reverse := ReverseGraph(g);
    var queue := changed;
    var visited: set<string> := {};
    var found: set<string> := {};
    ghost var files := (set f | f in changed) + (set a | a in arcs :: a.0);
    StartReaches(g, changed);
    while queue != []
      invariant visited <= files && forall f :: f in queue ==> f in files
      invariant found == set f | f in visited && f in units
      invariant forall f :: f in visited || f in queue ==> Includes(g, f, changed)
      invariant forall f :: f in changed ==> f in visited || f in queue
      invariant forall a :: a in arcs && a.1 in visited ==> a.0 in visited || a.0 in queue
      decreases files - visited, |queue|
    {
      var current := queue[0];
      ghost var before := queue;
      queue := queue[1..];
      assert forall f :: f in before <==> f == current || f in queue;
      if current !in visited {
        visited := visited + {current};
        if current in units {
          found := found + {current};
        }
        var dependents := if current in reverse then reverse[current] else {};
        DependentsReach(g, changed, reverse, current, dependents);
        queue := AppendAll(queue, dependents);
      }
    }
    forall f | Includes(g, f, changed)
      ensures f in visited
    {
      VisitedIsAll(g, changed, visited, f);
    }
    affected := SortedNames.Sort(found);
    forall f
      ensures Includes(g, f, changed) <==> exists p :: Inclusion(g, p) && p[0] == f && p[|p| - 1] in changed
    {
      IncludesIsInclusion(g, f, changed);
    }
  }

  method AppendAll(queue: seq<string>, more: set<string>) returns (r: seq<string>)
    ensures forall f :: f in r <==> f in queue || f in more
  {
    r := queue;
    var left := more;
    while left != {}
      invariant left <= more
      invariant forall f :: f in r <==> f in queue || (f in more && f !in left)
      decreases left
    {
      var f :| f in left;
      r := r + [f];
      left := left - {f};
    }
  }

  lemma StartReaches(g: IncludeGraph, changed: seq<string>)
    ensures forall f :: f in changed ==> Includes(g, f, changed)
  {
    forall f | f in changed
      ensures Includes(g, f, changed)
    {
      ReachesSelf(IncludeArcs(g), f);
    }
  }

  lemma DependentsReach(g: IncludeGraph, changed: seq<string>, reverse: map<string, set<string>>,
                        current: string, dependents: set<string>)
    requires Includes(g, current, changed) && IsReverse(reverse, IncludeArcs(g))
    requires dependents == if current in reverse then reverse[current] else {}
    ensures forall f :: f in dependents <==> (f, current) in IncludeArcs(g)
    ensures forall f :: f in dependents ==> Includes(g, f, changed)
  {
    var arcs := IncludeArcs(g);
    forall f | (f, current) in arcs
      ensures f in dependents
    {
      assert (f, current).1 in reverse;
    }
    var c :| c in changed && Reaches(arcs, current, c);
    forall f | f in dependents
      ensures Includes(g, f, changed)
    {
      ReachesArc(arcs, f, current);
      ReachesTransitive(arcs, f, current, c);
    }
  }

  /** A set of files holding the changed ones and every file that includes one
      of its members holds every file that includes a changed one. */
  lemma VisitedIsAll(g: IncludeGraph, changed: seq<string>, visited: set<string>, f: string)
    requires forall c :: c in changed ==> c in visited
    requires forall a :: a in IncludeArcs(g) && a.1 in visited ==> a.0 in visited
    requires Includes(g, f, changed)
    ensures f in visited
  {
    var arcs := IncludeArcs(g);
    var c :| c in changed && Reaches(arcs, f, c);
    var p :| WalkFromTo(arcs, p, f, c);
    BackwardsWalk(arcs, p);
    assert Closed(Reverse(arcs), visited);
    ClosedContainsReachable(Reverse(arcs), visited, c, f);
  }

  // ----- An incremental run -----

  function GraphOf(current: Index): IncludeGraph
  {
    map f | f in current :: current[f].includeEdges
  }

  /** Each file lists the next among its include edges in the index. */
  ghost predicate IndexedInclusion(current: Index, p: seq<string>)
  {
    |p| > 0 && forall k :: 0 < k < |p| ==> Lists(current, p[k - 1], p[k])
  }

  ghost predicate Lists(current: Index, f: string, i: string)
  {
    f in current && i in current[f].includeEdges
  }

  /** The file came, went, or has other content than before. */
  ghost predicate Altered(previous: Hashes, current: Index, f: string)
  {
    || (f in current && f !in previous)
    || (f in previous && f !in current)
    || (f in previous && f in current && previous[f] != current[f].contentHash)
  }

  lemma GraphInclusion(current: Index, p: seq<string>)
    ensures Inclusion(GraphOf(current), p) <==> IndexedInclusion(current, p)
  {
    assert forall f, i :: Lists(current, f, i) <==> IncludesDirectly(GraphOf(current), f, i);
    hide Lists, IncludesDirectly;
  }

  /** No file the unit includes, directly or through others, has changed since
      the last run, if it was known then or is known now. */
  ghost predicate UpToDate(previous: Hashes, current: Index, unit: string)
  {
    forall f :: Reaches(IncludeArcs(GraphOf(current)), unit, f) && (f in previous || f in current) ==>
      f in previous && f in current && previous[f] == current[f].contentHash
  }

  /** The units to analyse again, from the stored hashes and the new index.
      Skipping the others is safe, and nothing is analysed in vain: the units
      left out are exactly those that are up to date. */
  method SelectUnits(previous: Hashes, current: Index, units: seq<string>) returns (affected: seq<string>)
    ensures SortedNames.Ascending(affected)
    ensures forall u :: u in affected <==> u in units && !UpToDate(previous, current, u)
    ensures forall u :: u in affected <==>
      u in units && exists p :: IndexedInclusion(current, p) && p[0] == u && Altered(previous, current, p[|p| - 1])
  {
    var changed := ComputeChangedFiles(previous, current);
    affected := ComputeAffectedTranslationUnits(changed, GraphOf(current), units);
    forall p
      ensures Inclusion(GraphOf(current), p) <==> IndexedInclusion(current, p)
    {
      GraphInclusion(current, p);
    }
    hide Inclusion, IndexedInclusion;
    forall u
      ensures Includes(GraphOf(current), u, changed) <==> !UpToDate(previous, current, u)
    {
      SkippingIsSafe(previous, current, changed, u);
    }
  }

  lemma SkippingIsSafe(previous: Hashes, current: Index, changed: seq<string>, unit: string)
    requires forall f :: f in changed <==> Differs(previous, current, f)
    ensures Includes(GraphOf(current), unit, changed) <==> !UpToDate(previous, current, unit)
  {
    hide IncludeArcs, Reaches;
    var arcs := IncludeArcs(GraphOf(current));
    if Includes(GraphOf(current), unit, changed) {
      var c :| c in changed && Reaches(arcs, unit, c);
      assert Differs(previous, current, c);
    }
    if !UpToDate(previous, current, unit) {
      var f :| Reaches(arcs, unit, f) && (f in previous || f in current)
        && !(f in previous && f in current && previous[f] == current[f].contentHash);
      assert Differs(previous, current, f);
      assert f in changed;
    }
  }

  /** The index as it is built has no include edges at all; then a unit is
      selected iff it has itself changed. */
  lemma WithoutEdgesOnlyOwnChanges(previous: Hashes, current: Index, unit: string)
    requires forall f :: f in current ==> current[f].includeEdges == []
    ensures !UpToDate(previous, current, unit) <==> Differs(previous, current, unit)
  {
    var arcs := IncludeArcs(GraphOf(current));
    assert arcs == {};
    ReachesSelf(arcs, unit);
    assert Closed(arcs, {unit});
    forall f | Reaches(arcs, unit, f)
      ensures f == unit
    {
      ClosedContainsReachable(arcs, {unit}, unit, f);
    }
  }
}
