/** What a statement may do when it runs, with every condition a free choice.
    A run is the sequence of node ids met: a branching node stands for its
    condition, a loop for one test, a `case` for passing its label. A label is
    passed like a plain statement. A `goto` has no runs here; it lies outside the
    fragment that the path theorem covers. */
module Runs {
  import opened Ast
  import opened Collections

  /** What the language says, or what the builder makes of it: the builder
      tests a `do` loop before its body and never leaves a bare compound
      statement at its end. Elsewhere the two readings agree. */
  datatype Reading = InC | AsBuilt

  datatype Outcome = Normal | Broke | Continued | Returned

  /** Nothing in the statement can be entered: the body of a `switch` is not in
      braces, so that none of its children is a label, or a loop has no body. */
  predicate Hollow(s: Stmt)
  {
    (s.Loop? && s.body.None?) || (s.Switch? && !Braced(s.compound))
  }

  ghost predicate Executes(reading: Reading, s: Stmt, t: seq<NodeId>, o: Outcome)
    decreases |t|, Size(s), 1
  {
    if Hollow(s) then t == [s.id] && o == Normal
    else match s
    case Plain(id) => t == [id] && o == Normal
    case Label(id, _) => t == [id] && o == Normal
    case Case(id, _) => t == [id] && o == Normal
    case Return(id) => t == [id] && o == Returned
    case Break(id) => t == [id] && o == Broke
    case Continue(id) => t == [id] && o == Continued
    case If(id, th, el) =>
      && t != [] && t[0] == id
      && (ExecutesAll(reading, Sequence(th), t[1..], o) || ExecutesAll(reading, Sequence(el), t[1..], o))
    case Loop(_, kind, _) => if kind.Do? && reading.InC? then ExecutesDo(reading, s, t, o) else ExecutesWhile(reading, s, t, o)
    case Compound(_, ss) => ExecutesAll(reading, ss, t, o) && (reading.AsBuilt? ==> o != Normal)
    case Switch(id, b) =>
      && Braced(b) && t != [] && t[0] == id
      && var ss := Sequence(b);
         || (t == [id] && o == Normal && !HasDefaultLabel(ss))
         || exists i :: 0 <= i < |ss| && ss[i].Case? && RunsFrom(reading, ss[i..], t[1..], o)
    case Goto(_, _) => false
  }

  /** The body of a `switch` is in braces. */
  predicate Braced(b: Option<Stmt>)
  {
    b.Some? && b.value.Compound?
  }

  predicate HasDefaultLabel(ss: seq<Stmt>)
  {
    exists i :: 0 <= i < |ss| && ss[i].Case? && ss[i].isDefault
  }

  /** The children of a `switch` from the chosen label on, past the labels that
      follow, until something leaves the `switch`. */
  ghost predicate RunsFrom(reading: Reading, ss: seq<Stmt>, t: seq<NodeId>, o: Outcome)
    decreases |t|, SizeAll(ss), 3
  {
    if o == Normal then ExecutesAll(reading, ss, t, Normal) || ExecutesAll(reading, ss, t, Broke)
    else o != Broke && ExecutesAll(reading, ss, t, o)
  }

  ghost predicate ExecutesAll(reading: Reading, ss: seq<Stmt>, t: seq<NodeId>, o: Outcome)
    decreases |t|, SizeAll(ss), 2
  {
    if ss == [] then
      t == [] && o == Normal
    else
      || (o != Normal && Executes(reading, ss[0], t, o))
      || exists k :: 0 <= k <= |t| && Executes(reading, ss[0], t[..k], Normal) && ExecutesAll(reading, ss[1..], t[k..], o)
  }

  /** A `while` or `for` loop: test, then leave or go round again. */
  ghost predicate ExecutesWhile(reading: Reading, s: Stmt, t: seq<NodeId>, o: Outcome)
    requires s.Loop?
    decreases |t|, Size(s), 0
  {
    && t != [] && t[0] == s.id
    && (|| (t == [s.id] && o == Normal)
        || (o == Normal && ExecutesAll(reading, Sequence(s.body), t[1..], Broke))
        || (o == Returned && ExecutesAll(reading, Sequence(s.body), t[1..], Returned))
        || exists k :: 1 <= k <= |t| && GoesRound(reading, s, t[1..k]) && ExecutesWhile(reading, s, t[k..], o))
  }

  /** One execution of a loop body after which the loop test is reached again. */
  ghost predicate GoesRound(reading: Reading, s: Stmt, t: seq<NodeId>)
    requires s.Loop?
    decreases |t|, SizeAll(Sequence(s.body)), 3
  {
    ExecutesAll(reading, Sequence(s.body), t, Normal) || ExecutesAll(reading, Sequence(s.body), t, Continued)
  }

  /** A `do` loop: the body comes before the first test. */
  ghost predicate ExecutesDo(reading: Reading, s: Stmt, t: seq<NodeId>, o: Outcome)
    requires s.Loop?
    decreases |t|, Size(s), 0
  {
    || (o == Normal && ExecutesAll(reading, Sequence(s.body), t, Broke))
    || (o == Returned && ExecutesAll(reading, Sequence(s.body), t, Returned))
    || exists k :: 0 <= k < |t| && GoesRound(reading, s, t[..k]) && t[k] == s.id
                   && ((k + 1 == |t| && o == Normal) || ExecutesDo(reading, s, t[k + 1..], o))
  }

  /** A run of a whole function body, from its start to its return. */
  ghost predicate CompleteRun(reading: Reading, body: seq<Stmt>, t: seq<NodeId>)
  {
    ExecutesAll(reading, body, t, Normal) || ExecutesAll(reading, body, t, Returned)
  }

  // ------------------------------------------------------------------
  // Fragments of the language
  // ------------------------------------------------------------------

  /** What stands around a statement, up to the function or the innermost loop
      or `switch`; a child of a `switch` body, or one of its branches. */
  datatype Context = AtTop | InLoop | AmongCases | InCase
  {
    /** Inside a branch or a bare compound statement. */
    function Within(): Context
    {
      if AmongCases? then InCase else this
    }
  }

  /** Plain statements, labels, if/else, while/for, `switch`, return, break inside a loop
      or `switch`, and continue inside a loop with no `switch` between. */
  predicate Structured(s: Stmt, c: Context)
    decreases Size(s), 0
  {
    match s
    case Plain(_) => true
    case Label(_, _) => true
    case Case(_, _) => c.AmongCases?
    case Return(_) => true
    case Break(_) => !c.AtTop?
    case Continue(_) => c.InLoop?
    case If(_, th, el) => StructuredAll(Sequence(th), c.Within()) && StructuredAll(Sequence(el), c.Within())
    case Loop(_, kind, b) => !kind.Do? && StructuredAll(Sequence(b), InLoop)
    case Switch(_, b) => StructuredAll(Sequence(b), if Braced(b) then AmongCases else InCase)
    case _ => false
  }

  predicate StructuredAll(ss: seq<Stmt>, c: Context)
    decreases SizeAll(ss), 1
  {
    ss == [] || (Structured(ss[0], c) && StructuredAll(ss[1..], c))
  }

  /** As above, with `do` loops and bare compound statements as well. */
  predicate Regular(s: Stmt, c: Context)
    decreases Size(s), 0
  {
    match s
    case Plain(_) => true
    case Label(_, _) => true
    case Case(_, _) => c.AmongCases?
    case Return(_) => true
    case Break(_) => !c.AtTop?
    case Continue(_) => c.InLoop?
    case If(_, th, el) => RegularAll(Sequence(th), c.Within()) && RegularAll(Sequence(el), c.Within())
    case Loop(_, _, b) => RegularAll(Sequence(b), InLoop)
    case Switch(_, b) => RegularAll(Sequence(b), if Braced(b) then AmongCases else InCase)
    case Compound(_, ss) => RegularAll(ss, c.Within())
    case _ => false
  }

  predicate RegularAll(ss: seq<Stmt>, c: Context)
    decreases SizeAll(ss), 1
  {
    ss == [] || (Regular(ss[0], c) && RegularAll(ss[1..], c))
  }

  // ------------------------------------------------------------------
  // Where the two readings agree
  // ------------------------------------------------------------------

  /** The statement may be left at its end, as far as its shape tells. */
  predicate MayFinish(s: Stmt)
    decreases Size(s), 0
  {
    match s
    case Return(_) => false
    case Break(_) => false
    case Continue(_) => false
    case If(_, th, el) => AllMayFinish(Sequence(th)) || AllMayFinish(Sequence(el))
    case Compound(_, ss) => AllMayFinish(ss)
    case Switch(_, b) => !Braced(b) || !HasDefaultLabel(Sequence(b)) || MayLeave(Sequence(b))
    case _ => true
  }

  predicate AllMayFinish(ss: seq<Stmt>)
    decreases SizeAll(ss), 1
  {
    ss == [] || (MayFinish(ss[0]) && AllMayFinish(ss[1..]))
  }

  /** The statement may be left by a `break` to what stands around it. */
  predicate MayBreak(s: Stmt)
    decreases Size(s), 0
  {
    match s
    case Break(_) => true
    case If(_, th, el) => MayBreakAll(Sequence(th)) || MayBreakAll(Sequence(el))
    case Compound(_, ss) => MayBreakAll(ss)
    case _ => false
  }

  predicate MayBreakAll(ss: seq<Stmt>)
    decreases SizeAll(ss), 1
  {
    ss != [] && (MayBreak(ss[0]) || (MayFinish(ss[0]) && MayBreakAll(ss[1..])))
  }

  /** From some label on, the end of a `switch` body or a `break` may be reached. */
  predicate MayLeave(ss: seq<Stmt>)
    decreases SizeAll(ss), 2
  {
    ss != [] && ((ss[0].Case? && (AllMayFinish(ss) || MayBreakAll(ss))) || MayLeave(ss[1..]))
  }

  /** Nothing but empty braces. */
  predicate Silent(ss: seq<Stmt>)
  {
    NodesOf(ss) == []
  }

  /** Wherever a run can get, no bare compound statement may be left at its end,
      and no `do` loop has a body. Empty braces are harmless as one branch of
      an `if` whose other branch is empty or missing. */
  predicate Clean(s: Stmt)
    decreases Size(s), 0
  {
    match s
    case If(_, th, el) =>
      var a, b := Sequence(th), Sequence(el);
      && (Silent(a) || CleanAll(a)) && (Silent(b) || CleanAll(b))
      && (Silent(a) || Silent(b) ==> a == [] || b == [])
    case Loop(_, kind, b) => if kind.Do? then Sequence(b) == [] else CleanAll(Sequence(b))
    case Compound(_, ss) => CleanAll(ss) && !AllMayFinish(ss)
    case Switch(_, b) => Braced(b) ==> CleanFromLabels(Sequence(b))
    case _ => true
  }

  /** From every label on. */
  predicate CleanFromLabels(ss: seq<Stmt>)
    decreases SizeAll(ss), 2
  {
    ss == [] || ((ss[0].Case? ==> CleanAll(ss)) && CleanFromLabels(ss[1..]))
  }

  predicate CleanAll(ss: seq<Stmt>)
    decreases SizeAll(ss), 1
  {
    ss == [] || (Clean(ss[0]) && (MayFinish(ss[0]) ==> CleanAll(ss[1..])))
  }

  /** The bodies whose graphs are exact for what the language says. */
  predicate Faithful(body: seq<Stmt>)
  {
    RegularAll(body, AtTop) && CleanAll(body)
  }
}
