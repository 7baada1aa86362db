/** The path theorem. A graph in which a statement list is wired the way the
    builder wires it has, from the point where the list starts, exactly the
    paths that the runs of the list describe. */
module CfgPaths {
  import opened Collections
  import opened Ast
  import opened Runs
  import opened Readings
  import opened SwitchGroups
  import opened Paths
  import opened CfgSpec
  import opened CfgWellFormed

  /** What the path theorem needs of a graph: block contents and arcs. */
  datatype Net = Net(blocks: map<int, seq<NodeId>>, arcs: set<(int, int)>)

  ghost function NetOf(g: Cfg): Net
  {
    Net(g.blocks, g.Arcs())
  }

  function At(n: Net, b: int): seq<NodeId>
  {
    if b in n.blocks then n.blocks[b] else []
  }

  /** The statements met along a list of blocks. */
  function Trace(n: Net, p: seq<int>): seq<NodeId>
  {
    if p == [] then [] else At(n, p[0]) + Trace(n, p[1..])
  }

  /** `t` is the trace of a path that leaves block `b` after its first `k`
      statements and ends in the exit. */
  ghost predicate Follows(n: Net, p: seq<int>, b: int, k: nat, t: seq<NodeId>)
    decreases |p|
  {
    && p != [] && p[0] == b && k <= |At(n, b)| && At(n, b)[k..] <= t
    && var rest := t[|At(n, b)| - k..];
       if |p| == 1 then b == EXIT && rest == []
       else (b, p[1]) in n.arcs && Follows(n, p[1..], p[1], 0, rest)
  }

  // ------------------------------------------------------------------
  // Wiring
  // ------------------------------------------------------------------

  ghost predicate Targets(n: Net, b: int, ts: set<int>)
  {
    forall y :: (b, y) in n.arcs <==> y in ts
  }

  /** Block `b` ends with statement `id` at offset `k`. */
  ghost predicate EndsWith(n: Net, b: int, k: nat, id: NodeId)
  {
    |At(n, b)| == k + 1 && At(n, b)[k] == id
  }

  /** Nothing more is appended at `q`, and control goes on to `ts`. */
  ghost predicate Leads(n: Net, q: Pos, ts: set<int>)
  {
    |At(n, q.block)| == q.offset && Targets(n, q.block, ts)
  }

  ghost predicate Wired(n: Net, ss: seq<Stmt>, p: Pos, loops: seq<LoopFrame>)
    decreases SizeAll(ss), 1
  {
    ss == [] || (WiredStep(n, ss[0], p, loops) && Wired(n, ss[1..], Step(ss[0], p, loops).next, loops))
  }

  ghost predicate WiredStep(n: Net, s: Stmt, p: Pos, loops: seq<LoopFrame>)
    decreases Size(s), 0
  {
    if Hollow(s) then WiredHollow(n, s, p)
    else match s
    case Plain(id) => p.offset < |At(n, p.block)| && At(n, p.block)[p.offset] == id
    case Case(id, _) => p.offset < |At(n, p.block)| && At(n, p.block)[p.offset] == id
    case Label(id, _) =>
      && (p.offset > 0 ==> Leads(n, p, {p.counter + 1}))
      && var b := if p.offset > 0 then p.counter + 1 else p.block;
         |At(n, b)| > 0 && At(n, b)[0] == id
    case Return(id) => EndsWith(n, p.block, p.offset, id) && Targets(n, p.block, {EXIT})
    case Break(id) =>
      loops != [] && EndsWith(n, p.block, p.offset, id) && Targets(n, p.block, {Last(loops).breakTarget})
    case Continue(id) =>
      loops != [] && EndsWith(n, p.block, p.offset, id) && Targets(n, p.block, {Last(loops).continueTarget})
    case If(id, th, el) =>
      var join := p.counter + 1;
      var middle := BranchStep(th, p.block, join, join, TrueBranch, loops).next.counter;
      && EndsWith(n, p.block, p.offset, id)
      && Targets(n, p.block, {BranchEntry(th, join, join), BranchEntry(el, join, middle)})
      && WiredBranch(n, th, join, join, loops)
      && WiredBranch(n, el, join, middle, loops)
    case Loop(_, _, body) => body.Some? && WiredLoop(n, s, p, loops)
    case Compound(_, ss) =>
      && Leads(n, p, {p.counter + 1})
      && Wired(n, ss, Fresh(p.counter), loops)
      && Leads(n, Walk(ss, Fresh(p.counter), loops).next, {})
    case Switch(id, b) =>
      && Braced(b)
      && var groups, after := CaseGroups(Sequence(b)), p.counter + 1;
         var inner := SwitchLoops(loops, p);
         && EndsWith(n, p.block, p.offset, id)
         && Targets(n, p.block, SwitchTargets(groups, after, inner))
         && WiredGroups(n, groups, after, after, inner)
    case _ => false
  }

  /** A loop is tested in a block of its own, and a `switch` at the end of the
      current one; nothing but the block after it follows. */
  ghost predicate WiredHollow(n: Net, s: Stmt, p: Pos)
  {
    if s.Loop? then Leads(n, p, {p.counter + 1}) && EndsWith(n, p.counter + 1, 0, s.id) && Targets(n, p.counter + 1, {p.counter + 2})
    else EndsWith(n, p.block, p.offset, s.id) && Targets(n, p.block, {p.counter + 1})
  }

  function SwitchLoops(loops: seq<LoopFrame>, p: Pos): (inner: seq<LoopFrame>)
    ensures inner != [] && Last(inner) == LoopFrame(p.block, p.counter + 1)
  {
    loops + [LoopFrame(p.block, p.counter + 1)]
  }

  /** The first blocks of the groups. */
  function Entries(groups: seq<seq<Stmt>>, counter: nat, loops: seq<LoopFrame>): set<int>
  {
    if groups == [] then {}
    else {counter + 1} + Entries(groups[1..], BuildSequence(groups[0], counter, loops).next.counter, loops)
  }

  function SwitchTargets(groups: seq<seq<Stmt>>, after: nat, loops: seq<LoopFrame>): set<int>
    requires forall g: seq<Stmt> :: g in groups ==> |g| > 0 && g[0].Case?
  {
    Entries(groups, after, loops) + if HasDefault(groups) then {} else {after}
  }

  /** Each group falls through to the next one, and the last one out of the switch. */
  ghost predicate WiredGroups(n: Net, groups: seq<seq<Stmt>>, counter: nat, after: nat, loops: seq<LoopFrame>)
    decreases SizeGroups(groups), 2, |groups|
  {
    groups == [] ||
    var next := Walk(groups[0], Fresh(counter), loops).next;
    && groups[0] != [] && RegularAll(groups[0], AmongCases)
    && Wired(n, groups[0], Fresh(counter), loops)
    && Leads(n, next, {if |groups| == 1 then after else next.counter + 1})
    && WiredGroups(n, groups[1..], next.counter, after, loops)
  }

  /** How many blocks there are before group `g`. */
  function CounterAt(groups: seq<seq<Stmt>>, g: nat, counter: nat, loops: seq<LoopFrame>): nat
    requires g <= |groups|
  {
    if g == 0 then counter
    else CounterAt(groups[1..], g - 1, BuildSequence(groups[0], counter, loops).next.counter, loops)
  }

  lemma {:induction false} GroupAt(n: Net, groups: seq<seq<Stmt>>, g: nat, counter: nat, after: nat, loops: seq<LoopFrame>)
    requires g < |groups| && WiredGroups(n, groups, counter, after, loops)
    ensures WiredGroups(n, groups[g..], CounterAt(groups, g, counter, loops), after, loops)
    ensures CounterAt(groups, g, counter, loops) + 1 in Entries(groups, counter, loops)
    decreases g
  {
    hide Wired, Walk, Leads, Regular;
    if g == 0 {
      assert groups[0..] == groups;
    } else {
      GroupAt(n, groups[1..], g - 1, BuildSequence(groups[0], counter, loops).next.counter, after, loops);
      assert groups[1..][g - 1..] == groups[g..];
    }
  }

  lemma {:induction false} EntryOf(groups: seq<seq<Stmt>>, counter: nat, loops: seq<LoopFrame>, y: int) returns (g: nat)
    requires y in Entries(groups, counter, loops)
    ensures g < |groups| && y == CounterAt(groups, g, counter, loops) + 1
    decreases |groups|
  {
    hide BuildSequence;
    if y == counter + 1 {
      g := 0;
    } else {
      g := EntryOf(groups[1..], BuildSequence(groups[0], counter, loops).next.counter, loops, y);
      g := g + 1;
    }
  }

  function BranchEntry(b: Option<Stmt>, join: int, counter: nat): int
  {
    if b.None? then join else counter + 1
  }

  ghost predicate WiredBranch(n: Net, b: Option<Stmt>, join: int, counter: nat, loops: seq<LoopFrame>)
    decreases OptionSize(b), 2
  {
    b.None? || (&& Wired(n, Sequence(b), Fresh(counter), loops)
                && Leads(n, Walk(Sequence(b), Fresh(counter), loops).next, {join}))
  }

  ghost predicate WiredLoop(n: Net, s: Stmt, p: Pos, loops: seq<LoopFrame>)
    requires s.Loop? && s.body.Some?
    decreases OptionSize(s.body), 3
  {
    && Leads(n, p, {p.counter + 1})
    && WiredHeader(n, s, p.counter, loops)
  }

  function InnerLoops(loops: seq<LoopFrame>, counter: nat): (inner: seq<LoopFrame>)
    ensures inner != [] && Last(inner) == LoopFrame(counter + 1, counter + 2)
  {
    loops + [LoopFrame(counter + 1, counter + 2)]
  }

  ghost predicate WiredHeader(n: Net, s: Stmt, counter: nat, loops: seq<LoopFrame>)
    requires s.Loop? && s.body.Some?
    decreases OptionSize(s.body), 2
  {
    var header, after := counter + 1, counter + 2;
    var inner := InnerLoops(loops, counter);
    && At(n, header) == [s.id] && Targets(n, header, {counter + 3, after})
    && Wired(n, Sequence(s.body), Fresh(counter + 2), inner)
    && Leads(n, Walk(Sequence(s.body), Fresh(counter + 2), inner).next, {header})
  }

  ghost predicate ExitIsFinal(n: Net)
  {
    At(n, EXIT) == [] && forall y :: (EXIT, y) !in n.arcs
  }

  /** Where control goes after a statement list ends with outcome `o`. */
  ghost predicate Resumes(n: Net, next: Pos, loops: seq<LoopFrame>, o: Outcome, q: seq<int>, t: seq<NodeId>)
  {
    match o
    case Normal => Follows(n, q, next.block, next.offset, t)
    case Broke => loops != [] && Follows(n, q, Last(loops).breakTarget, 0, t)
    case Continued => loops != [] && Follows(n, q, Last(loops).continueTarget, 0, t)
    case Returned => t == []
  }

  // ------------------------------------------------------------------
  // Small steps along a path
  // ------------------------------------------------------------------

  /** Leaving a block after its last statement `id`. */
  lemma LeaveBlock(n: Net, p: seq<int>, b: int, k: nat, id: NodeId, ts: set<int>, t: seq<NodeId>)
    requires EndsWith(n, b, k, id) && Targets(n, b, ts) && b != EXIT
    requires Follows(n, p, b, k, t)
    ensures |p| > 1 && p[1] in ts && t != [] && t[0] == id && Follows(n, p[1..], p[1], 0, t[1..])
  {
  }

  lemma EnterBlock(n: Net, q: seq<int>, b: int, k: nat, id: NodeId, next: int, t: seq<NodeId>)
    requires EndsWith(n, b, k, id) && (b, next) in n.arcs
    requires Follows(n, q, next, 0, t)
    ensures Follows(n, [b] + q, b, k, [id] + t)
  {
    assert ([b] + q)[1..] == q && ([id] + t)[1..] == t;
  }

  lemma PassEnd(n: Net, p: seq<int>, q: Pos, ts: set<int>, t: seq<NodeId>)
    requires Leads(n, q, ts) && q.block != EXIT
    requires Follows(n, p, q.block, q.offset, t)
    ensures |p| > 1 && p[1] in ts && Follows(n, p[1..], p[1], 0, t)
  {
  }

  lemma CrossEnd(n: Net, p: seq<int>, q: Pos, next: int, t: seq<NodeId>)
    requires |At(n, q.block)| == q.offset && (q.block, next) in n.arcs
    requires Follows(n, p, next, 0, t)
    ensures Follows(n, [q.block] + p, q.block, q.offset, t)
  {
    assert ([q.block] + p)[1..] == p;
  }

  lemma StopsAtExit(n: Net, p: seq<int>, t: seq<NodeId>)
    requires ExitIsFinal(n) && Follows(n, p, EXIT, 0, t)
    ensures t == []
  {
  }

  lemma RunOnward(ss: seq<Stmt>, t: seq<NodeId>, k: nat, m: nat, o: Outcome)
    requires ss != [] && k + m <= |t|
    requires Executes(AsBuilt, ss[0], t[..k], Normal) && ExecutesAll(AsBuilt, ss[1..], t[k..][..m], o)
    ensures ExecutesAll(AsBuilt, ss, t[..k + m], o)
  {
    var u := t[..k + m];
    assert u[..k] == t[..k] && u[k..] == t[k..][..m];
  }

  lemma RunAbrupt(ss: seq<Stmt>, t: seq<NodeId>, o: Outcome)
    requires ss != [] && o != Normal && Executes(AsBuilt, ss[0], t, o)
    ensures ExecutesAll(AsBuilt, ss, t, o)
  {
  }

  lemma WiredNext(n: Net, ss: seq<Stmt>, p: Pos, loops: seq<LoopFrame>)
    requires ss != [] && Wired(n, ss, p, loops)
    ensures WiredStep(n, ss[0], p, loops) && Wired(n, ss[1..], Step(ss[0], p, loops).next, loops)
  {
  }

  // ------------------------------------------------------------------
  // From paths to runs
  // ------------------------------------------------------------------

  /** The list is wired at `p`, and the path with trace `t` starts there. */
  ghost predicate Enters(n: Net, ss: seq<Stmt>, p: Pos, loops: seq<LoopFrame>, path: seq<int>, t: seq<NodeId>)
  {
    Placed(p) && ExitIsFinal(n) && Wired(n, ss, p, loops) && Follows(n, path, p.block, p.offset, t)
  }

  /** A path to the exit begins with some run of the list where it starts, and
      goes on where the outcome of that run leads. */
  lemma {:induction false} PathToRun(n: Net, ss: seq<Stmt>, p: Pos, loops: seq<LoopFrame>, path: seq<int>, t: seq<NodeId>)
    returns (k: nat, o: Outcome, q: seq<int>)
    ensures Enters(n, ss, p, loops, path, t) ==>
      && k <= |t| && ExecutesAll(AsBuilt, ss, t[..k], o)
      && |q| <= |path| && Resumes(n, Walk(ss, p, loops).next, loops, o, q, t[k..])
    decreases |path|, SizeAll(ss), 2
  {
    k, o, q := 0, Normal, path;
    if Enters(n, ss, p, loops, path, t) {
      if ss == [] {
        assert t[0..] == t;
      } else {
        k, o, q := PathToRunFrom(n, ss, p, loops, path, t);
      }
    }
  }

  lemma {:induction false} PathToRunFrom(n: Net, ss: seq<Stmt>, p: Pos, loops: seq<LoopFrame>, path: seq<int>,
                                         t: seq<NodeId>)
    returns (k: nat, o: Outcome, q: seq<int>)
    requires ss != [] && Enters(n, ss, p, loops, path, t)
    ensures k <= |t| && ExecutesAll(AsBuilt, ss, t[..k], o)
    ensures |q| <= |path| && Resumes(n, Walk(ss, p, loops).next, loops, o, q, t[k..])
    decreases |path|, SizeAll(ss), 1
  {
    hide Step, Walk, Wired, WiredStep, Follows, Executes, ExecutesAll, Placed;
    var f := Step(ss[0], p, loops);
    WalkNext(ss, p, loops);
    WiredNext(n, ss, p, loops);
    k, o, q := StepToRun(n, ss[0], p, loops, path, t);
    if o == Normal {
      var m;
      m, o, q := PathToRun(n, ss[1..], f.next, loops, q, t[k..]);
      RunOnward(ss, t, k, m, o);
      assert t[k..][m..] == t[k + m..];
      k := k + m;
    } else {
      RunAbrupt(ss, t[..k], o);
    }
  }

  lemma {:induction false} StepToRun(n: Net, s: Stmt, p: Pos, loops: seq<LoopFrame>, path: seq<int>, t: seq<NodeId>)
    returns (k: nat, o: Outcome, q: seq<int>)
    requires Placed(p) && ExitIsFinal(n)
    requires WiredStep(n, s, p, loops)
    requires Follows(n, path, p.block, p.offset, t)
    ensures k <= |t| && Executes(AsBuilt, s, t[..k], o)
    ensures |q| <= |path| && Resumes(n, Step(s, p, loops).next, loops, o, q, t[k..])
    decreases |path|, Size(s), 0
  {
    hide Step, Walk, WiredStep, Follows, Executes, Resumes;
    if Hollow(s) {
      q := HollowToRun(n, s, p, loops, path, t);
      k, o := 1, Normal;
      return;
    }
    match s
    case If(_, _, _) =>
      k, o, q := IfToRun(n, s, p, loops, path, t);
    case Loop(_, _, _) =>
      WiredAsLoop(n, s, p, loops);
      k, o, q := WhileToRun(n, s, p, loops, path, t);
    case Compound(_, _) =>
      k, o, q := CompoundToRun(n, s, p, loops, path, t);
    case Switch(_, _) =>
      k, o, q := SwitchToRun(n, s, p, loops, path, t);
    case _ =>
      k, o, q := SimpleToRun(n, s, p, loops, path, t);
  }

  lemma HollowToRun(n: Net, s: Stmt, p: Pos, loops: seq<LoopFrame>, path: seq<int>, t: seq<NodeId>) returns (q: seq<int>)
    requires Hollow(s) && Placed(p) && WiredStep(n, s, p, loops)
    requires Follows(n, path, p.block, p.offset, t)
    ensures t != [] && t[0] == s.id && Executes(AsBuilt, s, t[..1], Normal)
    ensures |q| <= |path| && Resumes(n, Step(s, p, loops).next, loops, Normal, q, t[1..])
  {
    hide Follows, Step;
    HollowNext(s, p, loops);
    if s.Loop? {
      PassEnd(n, path, p, {p.counter + 1}, t);
      LeaveBlock(n, path[1..], p.counter + 1, 0, s.id, {p.counter + 2}, t);
      q := path[1..][1..];
    } else {
      LeaveBlock(n, path, p.block, p.offset, s.id, {p.counter + 1}, t);
      q := path[1..];
    }
  }

  lemma HollowNext(s: Stmt, p: Pos, loops: seq<LoopFrame>)
    requires Hollow(s)
    ensures var next := Step(s, p, loops).next;
      next.block == (if s.Loop? then p.counter + 2 else p.counter + 1) && next.offset == 0
  {
  }

  /** A statement without parts. */
  lemma SimpleToRun(n: Net, s: Stmt, p: Pos, loops: seq<LoopFrame>, path: seq<int>, t: seq<NodeId>)
    returns (k: nat, o: Outcome, q: seq<int>)
    requires !s.If? && !s.Loop? && !s.Compound? && !s.Switch? && ExitIsFinal(n) && Placed(p)
    requires WiredStep(n, s, p, loops)
    requires Follows(n, path, p.block, p.offset, t)
    ensures k <= |t| && Executes(AsBuilt, s, t[..k], o)
    ensures |q| <= |path| && Resumes(n, Step(s, p, loops).next, loops, o, q, t[k..])
  {
    hide Step, WiredStep, Follows, Executes, Resumes;
    match s
    case Return(_) => o, q := JumpToRun(n, s, p, loops, path, t); k := 1;
    case Break(_) => o, q := JumpToRun(n, s, p, loops, path, t); k := 1;
    case Continue(_) => o, q := JumpToRun(n, s, p, loops, path, t); k := 1;
    case Plain(_) => PassedToRun(n, s, p, loops, path, t); k, o, q := 1, Normal, path;
    case Case(_, _) => PassedToRun(n, s, p, loops, path, t); k, o, q := 1, Normal, path;
    case Label(_, _) => q := LabelToRun(n, s, p, loops, path, t); k, o := 1, Normal;
    case Goto(_, _) => NoGotoWired(n, s, p, loops);
  }

  lemma NoGotoWired(n: Net, s: Stmt, p: Pos, loops: seq<LoopFrame>)
    requires s.Goto?
    ensures !WiredStep(n, s, p, loops)
  {
  }

  lemma PassedToRun(n: Net, s: Stmt, p: Pos, loops: seq<LoopFrame>, path: seq<int>, t: seq<NodeId>)
    requires s.Plain? || s.Case?
    requires WiredStep(n, s, p, loops) && Follows(n, path, p.block, p.offset, t)
    ensures t != [] && Executes(AsBuilt, s, t[..1], Normal) && Resumes(n, Step(s, p, loops).next, loops, Normal, path, t[1..])
  {
  }

  lemma JumpToRun(n: Net, s: Stmt, p: Pos, loops: seq<LoopFrame>, path: seq<int>, t: seq<NodeId>)
    returns (o: Outcome, q: seq<int>)
    requires s.Return? || s.Break? || s.Continue?
    requires ExitIsFinal(n) && Placed(p) && WiredStep(n, s, p, loops)
    requires Follows(n, path, p.block, p.offset, t)
    ensures |t| > 0 && Executes(AsBuilt, s, t[..1], o)
    ensures |q| <= |path| && Resumes(n, Step(s, p, loops).next, loops, o, q, t[1..])
  {
    hide Follows;
    var target := if s.Return? then EXIT else if s.Break? then Last(loops).breakTarget else Last(loops).continueTarget;
    LeaveBlock(n, path, p.block, p.offset, s.id, {target}, t);
    q := path[1..];
    o := if s.Return? then Returned else if s.Break? then Broke else Continued;
    if s.Return? {
      StopsAtExit(n, path[1..], t[1..]);
    }
    assert t[..1] == [s.id];
  }

  lemma LabelToRun(n: Net, s: Stmt, p: Pos, loops: seq<LoopFrame>, path: seq<int>, t: seq<NodeId>) returns (q: seq<int>)
    requires s.Label? && Placed(p) && WiredStep(n, s, p, loops)
    requires Follows(n, path, p.block, p.offset, t)
    ensures t != [] && Executes(AsBuilt, s, t[..1], Normal)
    ensures |q| <= |path| && Resumes(n, Step(s, p, loops).next, loops, Normal, q, t[1..])
  {
    q := path;
    if p.offset > 0 {
      PassEnd(n, path, p, {p.counter + 1}, t);
      q := path[1..];
    }
  }

  lemma WiredAsLoop(n: Net, s: Stmt, p: Pos, loops: seq<LoopFrame>)
    requires s.Loop? && !Hollow(s) && WiredStep(n, s, p, loops)
    ensures s.body.Some? && WiredLoop(n, s, p, loops)
  {
  }

  lemma {:induction false} WhileToRun(n: Net, s: Stmt, p: Pos, loops: seq<LoopFrame>, path: seq<int>, t: seq<NodeId>)
    returns (k: nat, o: Outcome, q: seq<int>)
    requires s.Loop? && s.body.Some? && Placed(p) && ExitIsFinal(n)
    requires WiredLoop(n, s, p, loops)
    requires Follows(n, path, p.block, p.offset, t)
    ensures k <= |t| && Executes(AsBuilt, s, t[..k], o)
    ensures |q| <= |path| && Resumes(n, Step(s, p, loops).next, loops, o, q, t[k..])
    decreases |path|, OptionSize(s.body), 3
  {
    hide Step, Walk, Follows, WiredHeader, ExecutesWhile;
    PassEnd(n, path, p, {p.counter + 1}, t);
    k, o, q := LoopToRun(n, s, p.counter, loops, path[1..], t);
    LoopNext(s, p, loops);
  }

  /** A path through a bare compound statement cannot pass its end. */
  lemma {:induction false} CompoundToRun(n: Net, s: Stmt, p: Pos, loops: seq<LoopFrame>, path: seq<int>, t: seq<NodeId>)
    returns (k: nat, o: Outcome, q: seq<int>)
    requires s.Compound? && Placed(p) && ExitIsFinal(n)
    requires WiredStep(n, s, p, loops)
    requires Follows(n, path, p.block, p.offset, t)
    ensures k <= |t| && Executes(AsBuilt, s, t[..k], o)
    ensures |q| <= |path| && Resumes(n, Step(s, p, loops).next, loops, o, q, t[k..])
    decreases |path|, SizeAll(s.children), 2
  {
    hide Walk, Step, Wired, Follows, ExecutesAll, Leads;
    var start := Fresh(p.counter);
    var tail := Walk(s.children, start, loops).next;
    PassEnd(n, path, p, {p.counter + 1}, t);
    k, o, q := PathToRun(n, s.children, start, loops, path[1..], t);
    WalkConfined(s.children, start, loops);
    if o == Normal {
      NoWayOn(n, q, tail, t[k..]);
    } else {
      ResumesAbruptly(n, tail, Step(s, p, loops).next, loops, o, q, t[k..]);
    }
  }

  lemma NoWayOn(n: Net, p: seq<int>, q: Pos, t: seq<NodeId>)
    requires Leads(n, q, {}) && q.block != EXIT
    ensures !Follows(n, p, q.block, q.offset, t)
  {
  }

  lemma WalkNext(ss: seq<Stmt>, p: Pos, loops: seq<LoopFrame>)
    requires ss != [] && Placed(p)
    ensures Placed(Step(ss[0], p, loops).next)
    ensures Walk(ss, p, loops).next == Walk(ss[1..], Step(ss[0], p, loops).next, loops).next
  {
    hide Step;
    StepConfined(ss[0], p, loops);
  }

  lemma IfNext(s: Stmt, p: Pos, loops: seq<LoopFrame>)
    requires s.If?
    ensures Step(s, p, loops).next.block == p.counter + 1 && Step(s, p, loops).next.offset == 0
  {
    hide BranchStep;
  }

  lemma LoopNext(s: Stmt, p: Pos, loops: seq<LoopFrame>)
    requires s.Loop?
    ensures Step(s, p, loops).next.block == p.counter + 2 && Step(s, p, loops).next.offset == 0
  {
  }

  lemma {:induction false} BranchToRun(n: Net, b: Option<Stmt>, join: int, counter: nat, loops: seq<LoopFrame>,
                                       path: seq<int>, t: seq<NodeId>)
    returns (k: nat, o: Outcome, q: seq<int>)
    requires ExitIsFinal(n)
    requires WiredBranch(n, b, join, counter, loops)
    requires Follows(n, path, BranchEntry(b, join, counter), 0, t)
    ensures k <= |t| && ExecutesAll(AsBuilt, Sequence(b), t[..k], o)
    ensures |q| <= |path| && Resumes(n, Pos(join, 0, 0), loops, o, q, t[k..])
    decreases |path|, OptionSize(b), 3
  {
    if b.None? {
      k, o, q := 0, Normal, path;
      assert t[0..] == t;
    } else {
      var start := Fresh(counter);
      k, o, q := PathToRun(n, Sequence(b), start, loops, path, t);
      if o == Normal {
        WalkConfined(Sequence(b), start, loops);
        PassEnd(n, q, Walk(Sequence(b), start, loops).next, {join}, t[k..]);
        q := q[1..];
      }
    }
  }

  lemma {:induction false} IfToRun(n: Net, s: Stmt, p: Pos, loops: seq<LoopFrame>, path: seq<int>, t: seq<NodeId>)
    returns (k: nat, o: Outcome, q: seq<int>)
    requires s.If? && Placed(p) && ExitIsFinal(n)
    requires WiredStep(n, s, p, loops)
    requires Follows(n, path, p.block, p.offset, t)
    ensures k <= |t| && Executes(AsBuilt, s, t[..k], o)
    ensures |q| <= |path| && Resumes(n, Step(s, p, loops).next, loops, o, q, t[k..])
    decreases |path|, OptionSize(s.thenBranch) + OptionSize(s.elseBranch), 3
  {
    var join := p.counter + 1;
    var middle := BranchStep(s.thenBranch, p.block, join, join, TrueBranch, loops).next.counter;
    var entries := {BranchEntry(s.thenBranch, join, join), BranchEntry(s.elseBranch, join, middle)};
    LeaveBlock(n, path, p.block, p.offset, s.id, entries, t);
    var m;
    if path[1] == BranchEntry(s.thenBranch, join, join) {
      m, o, q := BranchToRun(n, s.thenBranch, join, join, loops, path[1..], t[1..]);
    } else {
      m, o, q := BranchToRun(n, s.elseBranch, join, middle, loops, path[1..], t[1..]);
    }
    k := m + 1;
    assert t[1..][m..] == t[k..] && t[..k][1..] == t[1..][..m];
  }

  /** Where control is after one execution of a loop body. */
  ghost predicate AfterBody(n: Net, counter: nat, r: Outcome, u: seq<int>, t: seq<NodeId>)
  {
    match r
    case Broke => Follows(n, u, counter + 2, 0, t)
    case Returned => t == []
    case _ => Follows(n, u, counter + 1, 0, t)
  }

  lemma {:induction false} LoopBodyToRun(n: Net, s: Stmt, counter: nat, loops: seq<LoopFrame>,
                                         path: seq<int>, t: seq<NodeId>)
    returns (m: nat, r: Outcome, u: seq<int>)
    requires s.Loop? && s.body.Some? && ExitIsFinal(n)
    requires WiredHeader(n, s, counter, loops)
    requires Follows(n, path, counter + 3, 0, t)
    ensures m <= |t| && ExecutesAll(AsBuilt, Sequence(s.body), t[..m], r)
    ensures |u| <= |path| && AfterBody(n, counter, r, u, t[m..])
    decreases |path|, OptionSize(s.body), 3
  {
    var inner := InnerLoops(loops, counter);
    var start := Fresh(counter + 2);
    m, r, u := PathToRun(n, Sequence(s.body), start, inner, path, t);
    if r == Normal {
      WalkConfined(Sequence(s.body), start, inner);
      PassEnd(n, u, Walk(Sequence(s.body), start, inner).next, {counter + 1}, t[m..]);
      u := u[1..];
    }
  }

  /** From a loop header on: each time round shortens the path. */
  lemma {:induction false} LoopToRun(n: Net, s: Stmt, counter: nat, loops: seq<LoopFrame>, path: seq<int>, t: seq<NodeId>)
    returns (k: nat, o: Outcome, q: seq<int>)
    requires s.Loop? && s.body.Some? && ExitIsFinal(n)
    requires WiredHeader(n, s, counter, loops)
    requires Follows(n, path, counter + 1, 0, t)
    ensures k <= |t| && ExecutesWhile(AsBuilt, s, t[..k], o)
    ensures |q| <= |path| && Resumes(n, Pos(counter + 2, 0, 0), loops, o, q, t[k..])
    decreases |path|, 0, 0
  {
    hide Walk, Wired, Follows, ExecutesAll, InnerLoops;
    LeaveBlock(n, path, counter + 1, 0, s.id, {counter + 3, counter + 2}, t);
    if path[1] == counter + 2 {
      k, o, q := 1, Normal, path[1..];
    } else {
      var m, r, u := LoopBodyToRun(n, s, counter, loops, path[1..], t[1..]);
      assert t[1..][m..] == t[m + 1..];
      if r == Broke || r == Returned {
        k, o, q := m + 1, if r == Broke then Normal else Returned, u;
        assert t[..k][1..] == t[1..][..m];
      } else {
        var j;
        j, o, q := LoopToRun(n, s, counter, loops, u, t[m + 1..]);
        k := m + 1 + j;
        assert t[..k][1..m + 1] == t[1..][..m] && t[..k][m + 1..] == t[m + 1..][..j];
        assert GoesRound(AsBuilt, s, t[..k][1..m + 1]);
        assert t[m + 1..][j..] == t[k..];
      }
    }
  }

  /** Where control is after a run of the groups of a switch. */
  ghost predicate AfterGroups(n: Net, after: int, o: Outcome, q: seq<int>, t: seq<NodeId>)
  {
    match o
    case Returned => t == []
    case Continued => false
    case _ => Follows(n, q, after, 0, t)
  }

  lemma {:induction false} GroupsToRun(n: Net, groups: seq<seq<Stmt>>, counter: nat, after: nat, loops: seq<LoopFrame>,
                                       path: seq<int>, t: seq<NodeId>)
    returns (k: nat, o: Outcome, q: seq<int>)
    requires groups != [] && ExitIsFinal(n) && loops != [] && Last(loops).breakTarget == after
    requires WiredGroups(n, groups, counter, after, loops)
    requires Follows(n, path, counter + 1, 0, t)
    ensures k <= |t| && ExecutesAll(AsBuilt, LaidOut(groups), t[..k], o)
    ensures |q| <= |path| && AfterGroups(n, after, o, q, t[k..])
    decreases |path|, SizeGroups(groups), 3
  {
    hide Walk, Wired, Follows, ExecutesAll, Leads, Regular, RegularAll;
    var rest := LaidOut(groups[1..]);
    var start := Fresh(counter);
    var next := Walk(groups[0], start, loops).next;
    k, o, q := PathToRun(n, groups[0], start, loops, path, t);
    NoStrayJumpsInAll(AsBuilt, groups[0], AmongCases, t[..k], o);
    if o != Normal {
      RunOfFront(AsBuilt, groups[0], rest, t[..k], o);
    } else {
      WalkConfined(groups[0], start, loops);
      PassEnd(n, q, next, {if |groups| == 1 then after else next.counter + 1}, t[k..]);
      q := q[1..];
      var m := 0;
      if |groups| == 1 {
        NothingRan(AsBuilt, [], t[k..][..0], Normal);
      } else {
        m, o, q := GroupsToRun(n, groups[1..], next.counter, after, loops, q, t[k..]);
      }
      RunThrough(AsBuilt, groups[0], rest, t[..k], t[k..][..m], o);
      assert t[..k] + t[k..][..m] == t[..k + m] && t[k..][m..] == t[k + m..];
      k := k + m;
    }
  }

  lemma SwitchNext(s: Stmt, p: Pos, loops: seq<LoopFrame>)
    requires s.Switch?
    ensures Step(s, p, loops).next.block == p.counter + 1 && Step(s, p, loops).next.offset == 0
  {
    hide GroupsStep, CaseGroups, SwitchExits;
  }

  /** The entry of one group, with all that is known of it. */
  lemma SwitchEntry(n: Net, s: Stmt, p: Pos, loops: seq<LoopFrame>, y: int) returns (g: nat, counter: nat)
    requires s.Switch? && !Hollow(s) && WiredStep(n, s, p, loops)
    requires var inner := SwitchLoops(loops, p);
             y in Entries(CaseGroups(Sequence(s.compound)), p.counter + 1, inner)
    ensures g < |CaseGroups(Sequence(s.compound))| && y == counter + 1
    ensures WiredGroups(n, CaseGroups(Sequence(s.compound))[g..], counter, p.counter + 1, SwitchLoops(loops, p))
  {
    hide WiredGroups, CaseGroups, Entries, CounterAt, SwitchLoops;
    var groups, inner := CaseGroups(Sequence(s.compound)), SwitchLoops(loops, p);
    g := EntryOf(groups, p.counter + 1, inner, y);
    counter := CounterAt(groups, g, p.counter + 1, inner);
    GroupAt(n, groups, g, p.counter + 1, p.counter + 1, inner);
  }

  lemma {:induction false} SwitchToRun(n: Net, s: Stmt, p: Pos, loops: seq<LoopFrame>, path: seq<int>, t: seq<NodeId>)
    returns (k: nat, o: Outcome, q: seq<int>)
    requires s.Switch? && !Hollow(s) && Placed(p) && ExitIsFinal(n)
    requires WiredStep(n, s, p, loops)
    requires Follows(n, path, p.block, p.offset, t)
    ensures k <= |t| && Executes(AsBuilt, s, t[..k], o)
    ensures |q| <= |path| && Resumes(n, Step(s, p, loops).next, loops, o, q, t[k..])
    decreases |path|, OptionSize(s.compound), 4
  {
    hide Step, Follows, WiredGroups, CaseGroups, Entries, ExecutesAll, SwitchLoops, HasDefaultLabel, HasDefault;
    var ss, after, inner := Sequence(s.compound), p.counter + 1, SwitchLoops(loops, p);
    var groups := CaseGroups(ss);
    SwitchNext(s, p, loops);
    LeaveBlock(n, path, p.block, p.offset, s.id, SwitchTargets(groups, after, inner), t);
    if path[1] in Entries(groups, after, inner) {
      var g, counter := SwitchEntry(n, s, p, loops, path[1]);
      var m, r;
      m, r, q := GroupsToRun(n, groups[g..], counter, after, inner, path[1..], t[1..]);
      var i := LabelOfGroup(ss, g);
      k, o := m + 1, if r == Broke then Normal else r;
      assert t[1..][m..] == t[k..] && t[..k][1..] == t[1..][..m];
      assert RunsFrom(AsBuilt, ss[i..], t[..k][1..], o);
    } else {
      DefaultGroup(ss);
      k, o, q := 1, Normal, path[1..];
      assert t[..1] == [s.id];
    }
  }

  // ------------------------------------------------------------------
  // From runs to paths
  // ------------------------------------------------------------------

  lemma ResumesNormally(n: Net, next: Pos, loops: seq<LoopFrame>, q: seq<int>, t: seq<NodeId>)
    ensures Resumes(n, next, loops, Normal, q, t) <==> Follows(n, q, next.block, next.offset, t)
  {
  }

  lemma ResumesAbruptly(n: Net, a: Pos, b: Pos, loops: seq<LoopFrame>, o: Outcome, q: seq<int>, t: seq<NodeId>)
    requires o != Normal && Resumes(n, a, loops, o, q, t)
    ensures Resumes(n, b, loops, o, q, t)
  {
  }

  lemma {:induction false} RunToPath(n: Net, ss: seq<Stmt>, p: Pos, loops: seq<LoopFrame>,
                                     t: seq<NodeId>, o: Outcome, q: seq<int>, u: seq<NodeId>)
    returns (path: seq<int>)
    requires Placed(p) && ExitIsFinal(n)
    requires Wired(n, ss, p, loops)
    requires ExecutesAll(AsBuilt, ss, t, o)
    requires Resumes(n, Walk(ss, p, loops).next, loops, o, q, u)
    ensures Follows(n, path, p.block, p.offset, t + u)
    decreases |t|, SizeAll(ss), 2
  {
    hide Step, Wired, WiredStep, Follows, Executes;
    if ss == [] {
      path := q;
      assert t + u == u;
    } else {
      path := RunToPathFrom(n, ss, p, loops, t, o, q, u);
    }
  }

  lemma {:induction false} RunToPathFrom(n: Net, ss: seq<Stmt>, p: Pos, loops: seq<LoopFrame>,
                                         t: seq<NodeId>, o: Outcome, q: seq<int>, u: seq<NodeId>)
    returns (path: seq<int>)
    requires ss != [] && Placed(p) && ExitIsFinal(n)
    requires Wired(n, ss, p, loops)
    requires ExecutesAll(AsBuilt, ss, t, o)
    requires Resumes(n, Walk(ss, p, loops).next, loops, o, q, u)
    ensures Follows(n, path, p.block, p.offset, t + u)
    decreases |t|, SizeAll(ss), 1
  {
    hide Step, Walk, Wired, WiredStep, Follows, Executes, ExecutesAll, Placed, Resumes;
    var f := Step(ss[0], p, loops);
    WalkNext(ss, p, loops);
    WiredNext(n, ss, p, loops);
    var abrupt, k := SplitRun(AsBuilt, ss, t, o);
    if abrupt {
      ResumesAbruptly(n, Walk(ss, p, loops).next, f.next, loops, o, q, u);
      path := StepToPath(n, ss[0], p, loops, t, o, q, u);
    } else {
      var r := RunToPath(n, ss[1..], f.next, loops, t[k..], o, q, u);
      ResumesNormally(n, f.next, loops, r, t[k..] + u);
      path := StepToPath(n, ss[0], p, loops, t[..k], Normal, r, t[k..] + u);
      SplitAppend(t, u, k);
    }
  }

  lemma SplitAppend(t: seq<NodeId>, u: seq<NodeId>, k: nat)
    requires k <= |t|
    ensures t[..k] + (t[k..] + u) == t + u
  {
  }

  lemma HollowToPath(n: Net, s: Stmt, p: Pos, loops: seq<LoopFrame>, q: seq<int>, u: seq<NodeId>) returns (path: seq<int>)
    requires Hollow(s) && Placed(p) && WiredStep(n, s, p, loops)
    requires Resumes(n, Step(s, p, loops).next, loops, Normal, q, u)
    ensures Follows(n, path, p.block, p.offset, [s.id] + u)
  {
    hide Follows, Step;
    HollowNext(s, p, loops);
    if s.Loop? {
      EnterBlock(n, q, p.counter + 1, 0, s.id, p.counter + 2, u);
      CrossEnd(n, [p.counter + 1] + q, p, p.counter + 1, [s.id] + u);
      path := [p.block] + ([p.counter + 1] + q);
    } else {
      EnterBlock(n, q, p.block, p.offset, s.id, p.counter + 1, u);
      path := [p.block] + q;
    }
  }

  lemma ReturnToPath(n: Net, p: Pos, id: NodeId) returns (path: seq<int>)
    requires ExitIsFinal(n) && EndsWith(n, p.block, p.offset, id) && Targets(n, p.block, {EXIT})
    ensures Follows(n, path, p.block, p.offset, [id])
  {
    assert Follows(n, [EXIT], EXIT, 0, []);
    EnterBlock(n, [EXIT], p.block, p.offset, id, EXIT, []);
    path := [p.block, EXIT];
    assert [p.block] + [EXIT] == path && [id] == [id] + [];
  }

  /** Passing a label, from the block before it if it opens one of its own. */
  lemma PassLabel(n: Net, s: Stmt, p: Pos, loops: seq<LoopFrame>, q: seq<int>, u: seq<NodeId>) returns (path: seq<int>)
    requires s.Label? && Placed(p) && WiredStep(n, s, p, loops)
    requires Resumes(n, Step(s, p, loops).next, loops, Normal, q, u)
    ensures Follows(n, path, p.block, p.offset, [s.id] + u)
  {
    hide Follows;
    if p.offset > 0 {
      PassStatement(n, q, Fresh(p.counter), s.id, u);
      CrossEnd(n, q, p, p.counter + 1, [s.id] + u);
      path := [p.block] + q;
    } else {
      PassStatement(n, q, p, s.id, u);
      path := q;
    }
  }

  lemma {:induction false} StepToPath(n: Net, s: Stmt, p: Pos, loops: seq<LoopFrame>,
                                      t: seq<NodeId>, o: Outcome, q: seq<int>, u: seq<NodeId>)
    returns (path: seq<int>)
    requires Placed(p) && ExitIsFinal(n)
    requires WiredStep(n, s, p, loops)
    requires Executes(AsBuilt, s, t, o)
    requires Resumes(n, Step(s, p, loops).next, loops, o, q, u)
    ensures Follows(n, path, p.block, p.offset, t + u)
    decreases |t|, Size(s), 0
  {
    if Hollow(s) {
      path := HollowToPath(n, s, p, loops, q, u);
      return;
    }
    match s
    case Plain(id) =>
      path := q;
      PassStatement(n, q, p, id, u);
    case Case(id, _) =>
      path := q;
      PassStatement(n, q, p, id, u);
    case Label(id, _) =>
      path := PassLabel(n, s, p, loops, q, u);
    case Return(id) =>
      path := ReturnToPath(n, p, id);
      assert t + u == [id];
    case Break(id) =>
      EnterBlock(n, q, p.block, p.offset, id, Last(loops).breakTarget, u);
      path := [p.block] + q;
    case Continue(id) =>
      EnterBlock(n, q, p.block, p.offset, id, Last(loops).continueTarget, u);
      path := [p.block] + q;
    case If(_, _, _) =>
      path := IfToPath(n, s, p, loops, t, o, q, u);
    case Loop(_, _, _) =>
      LoopNext(s, p, loops);
      var r := LoopToPath(n, s, p.counter, loops, t, o, q, u);
      CrossEnd(n, r, p, p.counter + 1, t + u);
      path := [p.block] + r;
    case Compound(_, _) =>
      path := CompoundToPath(n, s, p, loops, t, o, q, u);
    case Switch(_, _) =>
      path := SwitchToPath(n, s, p, loops, t, o, q, u);
  }

  lemma {:induction false} CompoundToPath(n: Net, s: Stmt, p: Pos, loops: seq<LoopFrame>,
                                          t: seq<NodeId>, o: Outcome, q: seq<int>, u: seq<NodeId>)
    returns (path: seq<int>)
    requires s.Compound? && Placed(p) && ExitIsFinal(n)
    requires WiredStep(n, s, p, loops)
    requires Executes(AsBuilt, s, t, o)
    requires Resumes(n, Step(s, p, loops).next, loops, o, q, u)
    ensures Follows(n, path, p.block, p.offset, t + u)
    decreases |t|, SizeAll(s.children), 3
  {
    hide Walk, Step, Wired, Follows, ExecutesAll, Resumes;
    var start := Fresh(p.counter);
    ResumesAbruptly(n, Step(s, p, loops).next, Walk(s.children, start, loops).next, loops, o, q, u);
    var r := RunToPath(n, s.children, start, loops, t, o, q, u);
    CrossEnd(n, r, p, p.counter + 1, t + u);
    path := [p.block] + r;
  }

  lemma PassStatement(n: Net, q: seq<int>, p: Pos, id: NodeId, u: seq<NodeId>)
    requires p.offset < |At(n, p.block)| && At(n, p.block)[p.offset] == id
    requires Follows(n, q, p.block, p.offset + 1, u)
    ensures Follows(n, q, p.block, p.offset, [id] + u)
  {
    var here := At(n, p.block);
    assert here[p.offset..] == [id] + here[p.offset + 1..];
    assert ([id] + u)[|here| - p.offset..] == u[|here| - p.offset - 1..];
  }

  lemma {:induction false} BranchToPath(n: Net, b: Option<Stmt>, join: int, counter: nat, loops: seq<LoopFrame>,
                                        t: seq<NodeId>, o: Outcome, q: seq<int>, u: seq<NodeId>)
    returns (path: seq<int>)
    requires ExitIsFinal(n)
    requires WiredBranch(n, b, join, counter, loops)
    requires ExecutesAll(AsBuilt, Sequence(b), t, o)
    requires Resumes(n, Pos(join, 0, 0), loops, o, q, u)
    ensures Follows(n, path, BranchEntry(b, join, counter), 0, t + u)
    decreases |t|, OptionSize(b), 3
  {
    if b.None? {
      path := q;
      assert t + u == u;
    } else {
      var start := Fresh(counter);
      var tail := Walk(Sequence(b), start, loops).next;
      var r := q;
      if o == Normal {
        CrossEnd(n, q, tail, join, u);
        r := [tail.block] + q;
      }
      path := RunToPath(n, Sequence(b), start, loops, t, o, r, u);
    }
  }

  lemma {:induction false} IfToPath(n: Net, s: Stmt, p: Pos, loops: seq<LoopFrame>,
                                    t: seq<NodeId>, o: Outcome, q: seq<int>, u: seq<NodeId>)
    returns (path: seq<int>)
    requires s.If? && Placed(p) && ExitIsFinal(n)
    requires WiredStep(n, s, p, loops)
    requires Executes(AsBuilt, s, t, o)
    requires Resumes(n, Step(s, p, loops).next, loops, o, q, u)
    ensures Follows(n, path, p.block, p.offset, t + u)
    decreases |t|, OptionSize(s.thenBranch) + OptionSize(s.elseBranch), 4
  {
    hide Step, BranchStep, ExecutesAll, Follows, WiredBranch, Resumes, BranchEntry;
    var join := p.counter + 1;
    var middle := BranchStep(s.thenBranch, p.block, join, join, TrueBranch, loops).next.counter;
    IfNext(s, p, loops);
    ResumesAt(n, Step(s, p, loops).next, Pos(join, 0, 0), loops, o, q, u);
    var r, entry;
    if ExecutesAll(AsBuilt, Sequence(s.thenBranch), t[1..], o) {
      entry := BranchEntry(s.thenBranch, join, join);
      r := BranchToPath(n, s.thenBranch, join, join, loops, t[1..], o, q, u);
    } else {
      entry := BranchEntry(s.elseBranch, join, middle);
      r := BranchToPath(n, s.elseBranch, join, middle, loops, t[1..], o, q, u);
    }
    EnterBlock(n, r, p.block, p.offset, s.id, entry, t[1..] + u);
    path := [p.block] + r;
    assert [s.id] + (t[1..] + u) == t + u;
  }

  lemma ResumesAt(n: Net, a: Pos, b: Pos, loops: seq<LoopFrame>, o: Outcome, q: seq<int>, t: seq<NodeId>)
    requires a.block == b.block && a.offset == b.offset && Resumes(n, a, loops, o, q, t)
    ensures Resumes(n, b, loops, o, q, t)
  {
    hide Follows;
  }

  /** One execution of a loop body, in front of whatever follows it. */
  lemma {:induction false} LoopBodyToPath(n: Net, s: Stmt, counter: nat, loops: seq<LoopFrame>,
                                          t: seq<NodeId>, r: Outcome, w: seq<int>, u: seq<NodeId>)
    returns (path: seq<int>)
    requires s.Loop? && s.body.Some? && ExitIsFinal(n)
    requires WiredHeader(n, s, counter, loops)
    requires ExecutesAll(AsBuilt, Sequence(s.body), t, r)
    requires AfterBody(n, counter, r, w, u)
    ensures Follows(n, path, counter + 3, 0, t + u)
    decreases |t|, OptionSize(s.body), 3
  {
    var inner := InnerLoops(loops, counter);
    var start := Fresh(counter + 2);
    hide Walk, Wired, Follows, ExecutesAll, InnerLoops;
    var q := w;
    if r == Normal {
      var tail := Walk(Sequence(s.body), start, inner).next;
      CrossEnd(n, w, tail, counter + 1, u);
      q := [tail.block] + w;
    }
    path := RunToPath(n, Sequence(s.body), start, inner, t, r, q, u);
  }

  lemma HeaderOnward(n: Net, s: Stmt, counter: nat, loops: seq<LoopFrame>, next: int, q: seq<int>, t: seq<NodeId>)
    requires s.Loop? && s.body.Some? && WiredHeader(n, s, counter, loops)
    requires next == counter + 2 || next == counter + 3
    requires Follows(n, q, next, 0, t)
    ensures Follows(n, [counter + 1] + q, counter + 1, 0, [s.id] + t)
  {
    EnterBlock(n, q, counter + 1, 0, s.id, next, t);
  }

  lemma {:induction false} LoopToPath(n: Net, s: Stmt, counter: nat, loops: seq<LoopFrame>,
                                      t: seq<NodeId>, o: Outcome, q: seq<int>, u: seq<NodeId>)
    returns (path: seq<int>)
    requires s.Loop? && s.body.Some? && ExitIsFinal(n)
    requires WiredHeader(n, s, counter, loops)
    requires ExecutesWhile(AsBuilt, s, t, o)
    requires Resumes(n, Pos(counter + 2, 0, 0), loops, o, q, u)
    ensures Follows(n, path, counter + 1, 0, t + u)
    decreases |t|, 0, 0
  {
    hide WiredHeader, Follows, ExecutesAll;
    var r, next;
    if t == [s.id] && o == Normal {
      r, next := q, counter + 2;
      assert t[1..] + u == u;
    } else if o == Normal && ExecutesAll(AsBuilt, Sequence(s.body), t[1..], Broke) {
      next := counter + 3;
      r := LoopBodyToPath(n, s, counter, loops, t[1..], Broke, q, u);
    } else if o == Returned && ExecutesAll(AsBuilt, Sequence(s.body), t[1..], Returned) {
      next := counter + 3;
      r := LoopBodyToPath(n, s, counter, loops, t[1..], Returned, q, u);
    } else {
      next := counter + 3;
      var k :| 1 <= k <= |t| && GoesRound(AsBuilt, s, t[1..k]) && ExecutesWhile(AsBuilt, s, t[k..], o);
      var w := LoopToPath(n, s, counter, loops, t[k..], o, q, u);
      var body := if ExecutesAll(AsBuilt, Sequence(s.body), t[1..k], Normal) then Normal else Continued;
      r := LoopBodyToPath(n, s, counter, loops, t[1..k], body, w, t[k..] + u);
      assert t[1..k] + (t[k..] + u) == t[1..] + u;
    }
    HeaderOnward(n, s, counter, loops, next, r, t[1..] + u);
    path := [counter + 1] + r;
    assert [s.id] + (t[1..] + u) == t + u;
  }

  lemma {:induction false} GroupsToPath(n: Net, groups: seq<seq<Stmt>>, counter: nat, after: nat, loops: seq<LoopFrame>,
                                        t: seq<NodeId>, o: Outcome, q: seq<int>, u: seq<NodeId>)
    returns (path: seq<int>)
    requires groups != [] && ExitIsFinal(n) && loops != [] && Last(loops).breakTarget == after
    requires WiredGroups(n, groups, counter, after, loops)
    requires ExecutesAll(AsBuilt, LaidOut(groups), t, o) && AfterGroups(n, after, o, q, u)
    ensures Follows(n, path, counter + 1, 0, t + u)
    decreases |t|, SizeGroups(groups), 3
  {
    hide Walk, Wired, Follows, ExecutesAll, Leads, Regular, RegularAll;
    var rest := LaidOut(groups[1..]);
    var start := Fresh(counter);
    var next := Walk(groups[0], start, loops).next;
    var abrupt, k := RunOfBoth(AsBuilt, groups[0], rest, t, o);
    if abrupt {
      path := RunToPath(n, groups[0], start, loops, t, o, q, u);
    } else {
      var r, entry, v := q, after, u;
      if |groups| == 1 {
        NothingRan(AsBuilt, [], t[k..], o);
      } else {
        GroupsShrink(groups);
        r := GroupsToPath(n, groups[1..], next.counter, after, loops, t[k..], o, q, u);
        entry, v := next.counter + 1, t[k..] + u;
      }
      PathFromEnd(n, r, next, entry, v);
      path := RunToPath(n, groups[0], start, loops, t[..k], Normal, [next.block] + r, v);
      assert t[..k] + v == t + u;
    }
  }

  lemma PathFromEnd(n: Net, r: seq<int>, next: Pos, entry: int, v: seq<NodeId>)
    requires Leads(n, next, {entry}) && Follows(n, r, entry, 0, v)
    ensures Follows(n, [next.block] + r, next.block, next.offset, v)
  {
    hide Follows;
    CrossEnd(n, r, next, entry, v);
  }

  lemma GroupsShrink(groups: seq<seq<Stmt>>)
    requires groups != [] && groups[0] != []
    ensures SizeGroups(groups[1..]) < SizeGroups(groups)
  {
  }

  /** Nothing in the groups of a switch continues a loop around it. */
  lemma {:induction false} GroupsStay(n: Net, groups: seq<seq<Stmt>>, counter: nat, after: nat, loops: seq<LoopFrame>,
                                      t: seq<NodeId>, o: Outcome)
    requires WiredGroups(n, groups, counter, after, loops)
    requires ExecutesAll(AsBuilt, LaidOut(groups), t, o)
    ensures o != Continued
    decreases |groups|
  {
    hide Walk, Wired, ExecutesAll, Leads, Regular, RegularAll;
    if groups == [] {
      NothingRan(AsBuilt, [], t, o);
    } else {
      var abrupt, k := RunOfBoth(AsBuilt, groups[0], LaidOut(groups[1..]), t, o);
      if abrupt {
        NoStrayJumpsInAll(AsBuilt, groups[0], AmongCases, t, o);
      } else {
        GroupsStay(n, groups[1..], Walk(groups[0], Fresh(counter), loops).next.counter, after, loops, t[k..], o);
      }
    }
  }

  /** From a label on, a run of the children of a switch takes the path into the
      group that the label starts. */
  lemma {:induction false} LabelToPath(n: Net, s: Stmt, p: Pos, loops: seq<LoopFrame>, i: nat,
                                       t: seq<NodeId>, o: Outcome, q: seq<int>, u: seq<NodeId>)
    returns (path: seq<int>, entry: int)
    requires s.Switch? && !Hollow(s) && Placed(p) && ExitIsFinal(n)
    requires WiredStep(n, s, p, loops)
    requires var ss := Sequence(s.compound); i < |ss| && ss[i].Case? && RunsFrom(AsBuilt, ss[i..], t, o)
    requires Resumes(n, Pos(p.counter + 1, 0, 0), loops, o, q, u)
    ensures entry in Entries(CaseGroups(Sequence(s.compound)), p.counter + 1, SwitchLoops(loops, p))
    ensures Follows(n, path, entry, 0, t + u)
    decreases |t|, OptionSize(s.compound), 4
  {
    hide Step, Follows, WiredGroups, CaseGroups, Entries, ExecutesAll, SwitchLoops, CounterAt, HasDefault;
    var ss, after, inner := Sequence(s.compound), p.counter + 1, SwitchLoops(loops, p);
    var groups := CaseGroups(ss);
    var g := GroupOfLabel(ss, i);
    GroupAt(n, groups, g, after, after, inner);
    var counter := CounterAt(groups, g, after, inner);
    var b := if o == Normal && !ExecutesAll(AsBuilt, ss[i..], t, Normal) then Broke else o;
    GroupsStay(n, groups[g..], counter, after, inner, t, b);
    GroupsFrom(groups, g);
    path := GroupsToPath(n, groups[g..], counter, after, inner, t, b, q, u);
    entry := counter + 1;
  }

  lemma {:induction false} GroupsFrom(groups: seq<seq<Stmt>>, g: nat)
    requires g <= |groups|
    ensures SizeGroups(groups[g..]) <= SizeGroups(groups)
    decreases g
  {
    if g == 0 {
      assert groups[0..] == groups;
    } else {
      assert groups[1..][g - 1..] == groups[g..];
      GroupsFrom(groups[1..], g - 1);
    }
  }

  /** A run of a switch meets the switch and takes a label or none. */
  lemma SwitchTakes(s: Stmt, t: seq<NodeId>, o: Outcome) returns (labelled: bool, i: nat)
    requires s.Switch? && !Hollow(s) && Executes(AsBuilt, s, t, o)
    ensures t != [] && t == [s.id] + t[1..]
    ensures var ss := Sequence(s.compound);
      if labelled then i < |ss| && ss[i].Case? && RunsFrom(AsBuilt, ss[i..], t[1..], o)
      else t == [s.id] && o == Normal && !HasDefaultLabel(ss)
  {
    hide RunsFrom, HasDefaultLabel;
    var ss := Sequence(s.compound);
    labelled, i := !(t == [s.id] && o == Normal && !HasDefaultLabel(ss)), 0;
    if labelled {
      i :| 0 <= i < |ss| && ss[i].Case? && RunsFrom(AsBuilt, ss[i..], t[1..], o);
    }
  }

  lemma {:induction false} SwitchToPath(n: Net, s: Stmt, p: Pos, loops: seq<LoopFrame>,
                                        t: seq<NodeId>, o: Outcome, q: seq<int>, u: seq<NodeId>)
    returns (path: seq<int>)
    requires s.Switch? && !Hollow(s) && Placed(p) && ExitIsFinal(n)
    requires WiredStep(n, s, p, loops)
    requires Executes(AsBuilt, s, t, o)
    requires Resumes(n, Step(s, p, loops).next, loops, o, q, u)
    ensures Follows(n, path, p.block, p.offset, t + u)
    decreases |t|, OptionSize(s.compound), 5
  {
    hide Step, Follows, WiredGroups, CaseGroups, Entries, RunsFrom, SwitchLoops, HasDefaultLabel, HasDefault, Executes;
    SwitchNext(s, p, loops);
    var labelled, i := SwitchTakes(s, t, o);
    var r, entry := q, p.counter + 1;
    if labelled {
      r, entry := LabelToPath(n, s, p, loops, i, t[1..], o, q, u);
    } else {
      DefaultGroup(Sequence(s.compound));
      assert t[1..] + u == u;
    }
    EnterBlock(n, r, p.block, p.offset, s.id, entry, t[1..] + u);
    path := [p.block] + r;
    assert [s.id] + (t[1..] + u) == t + u;
  }
}
