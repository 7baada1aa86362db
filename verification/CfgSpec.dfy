/** Control-flow graphs, and the graph that the builder makes of each function
    body, as a value. A fragment of the body is described by what building it
    adds: edges, statement placements, labels and pending gotos, each in the
    order in which they are added. Block `b<n>` is the integer n. */
module CfgSpec {
  import opened Collections
  import opened Ast
  import opened Paths

  const ENTRY: int := 0
  const EXIT: int := -1

  datatype EdgeKind =
    | Fallthrough | TrueBranch | FalseBranch | LoopBack | BreakEdge | ContinueEdge | GotoEdge
    | CaseEdge | DefaultEdge | NoMatch | SwitchFallthrough | ReturnEdge | ImplicitReturn

  datatype Edge = Edge(source: int, target: int, kind: EdgeKind)

  /** `order` lists the block ids in the order in which they were inserted. */
  datatype Cfg = Cfg(order: seq<int>, blocks: map<int, seq<NodeId>>, edges: seq<Edge>)
  {
    ghost function Arcs(): set<(int, int)>
    {
      ArcsOf(edges)
    }
  }

  ghost function ArcsOf(edges: seq<Edge>): set<(int, int)>
  {
    set e | e in edges :: (e.source, e.target)
  }

  lemma ArcOfEdge(edges: seq<Edge>, x: int, y: int)
    ensures (x, y) in ArcsOf(edges) <==> exists e :: e in edges && e.source == x && e.target == y
  {
    if e :| e in edges && e.source == x && e.target == y {
      assert (e.source, e.target) in ArcsOf(edges);
    }
  }

  datatype Place = Place(block: int, id: NodeId)
  datatype LabelDef = LabelDef(name: string, block: int)
  datatype PendingGoto = PendingGoto(block: int, name: string)
  datatype LoopFrame = LoopFrame(continueTarget: int, breakTarget: int)

  /** Where the builder stands: the current block, the number of statements it
      holds, and the number of blocks created so far. */
  datatype Pos = Pos(block: int, offset: nat, counter: nat)

  datatype Frag = Frag(
    edges: seq<Edge>,
    places: seq<Place>,
    labels: seq<LabelDef>,
    gotos: seq<PendingGoto>,
    next: Pos)
  {
    function Then(f: Frag): Frag
    {
      Frag(edges + f.edges, places + f.places, labels + f.labels, gotos + f.gotos, f.next)
    }

    function Wire(more: seq<Edge>): Frag
    {
      this.(edges := edges + more)
    }

    function Resume(p: Pos): Frag
    {
      this.(next := p)
    }
  }

  function Nothing(p: Pos): Frag
  {
    Frag([], [], [], [], p)
  }

  function Fresh(counter: nat): Pos
  {
    Pos(counter + 1, 0, counter + 1)
  }

  /** Append a statement to the current block. */
  function Put(id: NodeId, p: Pos): Frag
  {
    Frag([], [Place(p.block, id)], [], [], p.(offset := p.offset + 1))
  }

  /** A statement list built into a sequence of blocks of its own. */
  function BuildSequence(ss: seq<Stmt>, counter: nat, loops: seq<LoopFrame>): Frag
    decreases SizeAll(ss), 2
  {
    Walk(ss, Fresh(counter), loops)
  }

  function Walk(ss: seq<Stmt>, p: Pos, loops: seq<LoopFrame>): Frag
    decreases SizeAll(ss), 1
  {
    if ss == [] then Nothing(p)
    else
      var f := Step(ss[0], p, loops);
      f.Then(Walk(ss[1..], f.next, loops))
  }

  function Step(s: Stmt, p: Pos, loops: seq<LoopFrame>): Frag
    decreases Size(s), 0
  {
    match s
    case Plain(id) => Put(id, p)
    case Case(id, _) => Put(id, p)
    case Label(id, name) => LabelStep(id, name, p)
    case Return(id) => Put(id, p).Wire([Edge(p.block, EXIT, ReturnEdge)]).Resume(Fresh(p.counter))
    case Break(id) =>
      Put(id, p).Wire(if loops == [] then [] else [Edge(p.block, Last(loops).breakTarget, BreakEdge)])
      .Resume(Fresh(p.counter))
    case Continue(id) =>
      Put(id, p).Wire(if loops == [] then [] else [Edge(p.block, Last(loops).continueTarget, ContinueEdge)])
      .Resume(Fresh(p.counter))
    case Goto(id, target) =>
      Put(id, p).(gotos := [PendingGoto(p.block, target)]).Resume(Fresh(p.counter))
    case Compound(_, _) => CompoundStep(s, p, loops)
    case If(_, _, _) => IfStep(s, p, loops)
    case Loop(_, _, _) => LoopStep(s, p, loops)
    case Switch(_, _) => SwitchStep(s, p, loops)
  }

  function CompoundStep(s: Stmt, p: Pos, loops: seq<LoopFrame>): Frag
    requires s.Compound?
    decreases SizeAll(s.children), 3
  {
    var f := BuildSequence(s.children, p.counter, loops);
    f.Wire([Edge(p.block, p.counter + 1, Fallthrough)]).Resume(Fresh(f.next.counter))
  }

  function IfStep(s: Stmt, p: Pos, loops: seq<LoopFrame>): Frag
    requires s.If?
    decreases OptionSize(s.thenBranch) + OptionSize(s.elseBranch), 4
  {
    var join := p.counter + 1;
    var f := BranchStep(s.thenBranch, p.block, join, join, TrueBranch, loops);
    var g := BranchStep(s.elseBranch, p.block, join, f.next.counter, FalseBranch, loops);
    IfShape(s.id, p, f, g)
  }

  function LoopStep(s: Stmt, p: Pos, loops: seq<LoopFrame>): Frag
    requires s.Loop?
    decreases OptionSize(s.body), 4
  {
    var inner := loops + [LoopFrame(p.counter + 1, p.counter + 2)];
    LoopShape(s.id, p, LoopBodyStep(s.body, p.counter + 1, p.counter + 2, if s.kind.Do? then Fallthrough else TrueBranch, inner))
  }

  function SwitchStep(s: Stmt, p: Pos, loops: seq<LoopFrame>): Frag
    requires s.Switch?
    decreases OptionSize(s.compound), 5
  {
    var after := p.counter + 1;
    if s.compound.Some? && s.compound.value.Compound? then
      var groups := CaseGroups(s.compound.value.children);
      assert SizeGroups(groups) < Size(s.compound.value);
      var f := GroupsStep(groups, p.block, after, loops + [LoopFrame(p.block, after)], None);
      SwitchShape(s.id, p, f, SwitchExits(p.block, after, groups, f.next.block))
    else
      SwitchShape(s.id, p, Nothing(Pos(after, 0, after)), [Edge(p.block, after, Fallthrough)])
  }

  /** A two-way branch out of the current block, meeting again in a block made
      before those of the branches. */
  function IfShape(id: NodeId, p: Pos, f: Frag, g: Frag): Frag
  {
    Put(id, p).Then(f).Then(g).Resume(Pos(p.counter + 1, 0, g.next.counter))
  }

  function SwitchShape(id: NodeId, p: Pos, f: Frag, exits: seq<Edge>): Frag
  {
    Put(id, p).Then(f).Wire(exits).Resume(Pos(p.counter + 1, 0, f.next.counter))
  }

  /** A loop: its header and the block after it, around the edges of its body. */
  function LoopShape(id: NodeId, p: Pos, f: Frag): Frag
  {
    var header, after := p.counter + 1, p.counter + 2;
    Frag([Edge(p.block, header, Fallthrough)], [Place(header, id)], [], [], Pos(header, 1, after))
    .Then(f).Wire([Edge(header, after, FalseBranch)]).Resume(Pos(after, 0, f.next.counter))
  }

  /** The ways past a switch: out of its last group, and past all labels when
      there is no default. */
  function SwitchExits(switchBlock: int, after: int, groups: seq<seq<Stmt>>, tail: int): seq<Edge>
    requires forall g: seq<Stmt> :: g in groups ==> |g| > 0 && g[0].Case?
  {
    (if groups == [] then [] else [Edge(tail, after, Fallthrough)])
    + (if HasDefault(groups) then [] else [Edge(switchBlock, after, NoMatch)])
  }

  /** A label starts a block of its own unless the current one is still empty. */
  function LabelStep(id: NodeId, name: string, p: Pos): Frag
  {
    var q := if p.offset > 0 then Fresh(p.counter) else p;
    Put(id, q)
    .(edges := if p.offset > 0 then [Edge(p.block, q.block, Fallthrough)] else [],
      labels := [LabelDef(name, q.block)])
  }

  function BranchStep(b: Option<Stmt>, branch: int, join: int, counter: nat, kind: EdgeKind,
                      loops: seq<LoopFrame>): Frag
    decreases OptionSize(b), 3
  {
    match b
    case None => Nothing(Pos(join, 0, counter)).Wire([Edge(branch, join, kind)])
    case Some(_) =>
      var f := BuildSequence(Sequence(b), counter, loops);
      f.Wire([Edge(branch, counter + 1, kind), Edge(f.next.block, join, Fallthrough)])
  }

  function LoopBodyStep(b: Option<Stmt>, header: int, counter: nat, kind: EdgeKind,
                        loops: seq<LoopFrame>): Frag
    decreases OptionSize(b), 3
  {
    match b
    case None => Nothing(Pos(header, 0, counter))
    case Some(_) =>
      var f := BuildSequence(Sequence(b), counter, loops);
      f.Wire([Edge(header, counter + 1, kind), Edge(f.next.block, header, LoopBack)])
  }

  /** The children of a `switch` body cut before each case or default label;
      whatever precedes the first label is dropped. */
  function CaseGroups(ss: seq<Stmt>): (groups: seq<seq<Stmt>>)
    ensures forall g: seq<Stmt> :: g in groups ==> |g| > 0 && g[0].Case?
    ensures SizeGroups(groups) <= SizeAll(ss)
    decreases |ss|
  {
    if ss == [] then []
    else if ss[0].Case? then
      var n := GroupLength(ss[1..]) + 1;
      SizeAllAppend(ss[..n], ss[n..]);
      assert ss == ss[..n] + ss[n..];
      [ss[..n]] + CaseGroups(ss[n..])
    else CaseGroups(ss[1..])
  }

  /** How many statements come before the next case or default label. */
  function GroupLength(ss: seq<Stmt>): (n: nat)
    ensures n <= |ss|
    ensures forall i :: 0 <= i < n ==> !ss[i].Case?
    ensures n < |ss| ==> ss[n].Case?
    decreases |ss|
  {
    if ss == [] || ss[0].Case? then 0 else 1 + GroupLength(ss[1..])
  }

  function SizeGroups(groups: seq<seq<Stmt>>): nat
  {
    if groups == [] then 0 else SizeAll(groups[0]) + SizeGroups(groups[1..])
  }

  function HasDefault(groups: seq<seq<Stmt>>): bool
    requires forall g: seq<Stmt> :: g in groups ==> |g| > 0 && g[0].Case?
  {
    exists g: seq<Stmt> :: g in groups && g[0].isDefault
  }

  /** Each group gets blocks of its own, entered from the switch block and from
      the end of the group before it. */
  function GroupsStep(groups: seq<seq<Stmt>>, switchBlock: int, counter: nat, loops: seq<LoopFrame>,
                      previous: Option<int>): Frag
    requires forall g: seq<Stmt> :: g in groups ==> |g| > 0 && g[0].Case?
    decreases SizeGroups(groups), 4, |groups|
  {
    if groups == [] then
      Nothing(Pos(if previous.Some? then previous.value else switchBlock, 0, counter))
    else
      var f := GroupFrag(groups[0], switchBlock, counter, loops, previous);
      f.Then(GroupsStep(groups[1..], switchBlock, f.next.counter, loops, Some(f.next.block)))
  }

  function GroupFrag(group: seq<Stmt>, switchBlock: int, counter: nat, loops: seq<LoopFrame>,
                     previous: Option<int>): Frag
    requires |group| > 0 && group[0].Case?
    decreases SizeAll(group), 3
  {
    BuildSequence(group, counter, loops)
    .Wire([Edge(switchBlock, counter + 1, if group[0].isDefault then DefaultEdge else CaseEdge)]
          + if previous.Some? then [Edge(previous.value, counter + 1, SwitchFallthrough)] else [])
  }

  // ------------------------------------------------------------------
  // The whole graph
  // ------------------------------------------------------------------

  /** The ids that were appended to block `b`, in order. */
  function PlacedAt(places: seq<Place>, b: int): seq<NodeId>
  {
    if places == [] then []
    else (if places[0].block == b then [places[0].id] else []) + PlacedAt(places[1..], b)
  }

  /** The block a label name is bound to, the last definition winning. */
  function LabelTarget(labels: seq<LabelDef>, name: string): Option<int>
  {
    if labels == [] then None
    else if Last(labels).name == name then Some(Last(labels).block)
    else LabelTarget(labels[..|labels| - 1], name)
  }

  /** A goto goes to its label, or to the exit when no such label exists. */
  function GotoEdges(gotos: seq<PendingGoto>, labels: seq<LabelDef>): seq<Edge>
  {
    if gotos == [] then []
    else
      var t := LabelTarget(labels, gotos[0].name);
      [Edge(gotos[0].block, if t.Some? then t.value else EXIT, GotoEdge)] + GotoEdges(gotos[1..], labels)
  }

  function Successors(edges: seq<Edge>, b: int): (out: seq<Edge>)
    ensures forall e :: e in out <==> e in edges && e.source == b
    ensures (forall e :: e in edges ==> e.source != b) ==> out == []
  {
    if edges == [] then []
    else (if edges[0].source == b then [edges[0]] else []) + Successors(edges[1..], b)
  }

  function Predecessors(edges: seq<Edge>, b: int): (into: seq<Edge>)
    ensures forall e :: e in into <==> e in edges && e.target == b
    ensures (forall e :: e in edges ==> e.target != b) ==> into == []
  {
    if edges == [] then []
    else (if edges[0].target == b then [edges[0]] else []) + Predecessors(edges[1..], b)
  }

  /** The end of the body falls off into the exit when something leads to it
      and nothing leads on. */
  function ImplicitReturnEdges(edges: seq<Edge>, tail: int): seq<Edge>
  {
    if Successors(edges, tail) == [] && Predecessors(edges, tail) != []
    then [Edge(tail, EXIT, ImplicitReturn)] else []
  }

  function BlockOrder(counter: nat): (order: seq<int>)
    ensures |order| == counter + 2
    ensures forall i :: 0 <= i < |order| ==> order[i] == if i == 0 then ENTRY else if i == 1 then EXIT else i - 1
  {
    seq(counter + 2, i => if i == 0 then ENTRY else if i == 1 then EXIT else i - 1)
  }

  function BlockIds(counter: nat): (ids: set<int>)
    ensures forall b :: b in ids <==> b == EXIT || 0 <= b <= counter
  {
    assert forall b: int :: EXIT <= b <= counter ==> b in BlockOrder(counter) by {
      forall b: int | EXIT <= b <= counter
        ensures b in BlockOrder(counter)
      {
        assert BlockOrder(counter)[if b == ENTRY then 0 else if b == EXIT then 1 else b + 1] == b;
      }
    }
    set b | b in BlockOrder(counter)
  }

  function BlocksOf(counter: nat, places: seq<Place>): map<int, seq<NodeId>>
  {
    map b | b in BlockIds(counter) :: PlacedAt(places, b)
  }

  /** The edges of a non-empty body's graph: its own, the entry edge, the
      implicit return and the gotos. */
  function AllEdges(f: Frag): seq<Edge>
  {
    var edges := f.edges + [Edge(ENTRY, 1, Fallthrough)];
    edges + ImplicitReturnEdges(edges, f.next.block) + GotoEdges(f.gotos, f.labels)
  }

  /** The graph of a function body before pruning. */
  function RawGraph(body: seq<Stmt>): Cfg
  {
    if body == [] then
      Cfg(BlockOrder(0), BlocksOf(0, []), [Edge(ENTRY, EXIT, Fallthrough)])
    else
      var f := BuildSequence(body, 0, []);
      Cfg(BlockOrder(f.next.counter), BlocksOf(f.next.counter, f.places), AllEdges(f))
  }
}
