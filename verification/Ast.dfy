/** The statement trees the control-flow builder reads, with the shape of each
    node already extracted: the condition of an `if` or a loop, and everything
    inside a plain statement, play no part in the graph. */
module Ast {
  import opened Collections

  type NodeId = nat

  datatype LoopKind = While | For | Do

  datatype Stmt =
    | Plain(id: NodeId)
    | Label(id: NodeId, name: string)
    | Case(id: NodeId, isDefault: bool)
    | If(id: NodeId, thenBranch: Option<Stmt>, elseBranch: Option<Stmt>)
    | Loop(id: NodeId, kind: LoopKind, body: Option<Stmt>)
    | Switch(id: NodeId, compound: Option<Stmt>)
    | Compound(id: NodeId, children: seq<Stmt>)
    | Return(id: NodeId)
    | Break(id: NodeId)
    | Continue(id: NodeId)
    | Goto(id: NodeId, target: string)

  /** Node counts, used to show that recursion over the tree ends. */
  function Size(s: Stmt): (n: nat)
    ensures n > 0
    decreases s
  {
    match s
    case If(_, t, e) => 1 + OptionSize(t) + OptionSize(e)
    case Loop(_, _, b) => 1 + OptionSize(b)
    case Switch(_, b) => 1 + OptionSize(b)
    case Compound(_, ss) => 1 + SizeAll(ss)
    case _ => 1
  }

  function OptionSize(o: Option<Stmt>): nat
    decreases o
  {
    match o
    case None => 0
    case Some(s) => Size(s)
  }

  function SizeAll(ss: seq<Stmt>): nat
    decreases ss
  {
    if ss == [] then 0 else Size(ss[0]) + SizeAll(ss[1..])
  }

  /** The statements of a branch or loop body: a braced body stands for its
      children, anything else for itself. */
  function Sequence(body: Option<Stmt>): (ss: seq<Stmt>)
    ensures SizeAll(ss) <= OptionSize(body)
  {
    match body
    case None => []
    case Some(Compound(_, children)) => children
    case Some(s) => assert SizeAll([s]) == Size(s); [s]
  }

  /** The node ids of a tree, in source order. */
  function Nodes(s: Stmt): seq<NodeId>
    decreases Size(s), 0
  {
    match s
    case If(id, t, e) => [id] + NodesOf(Sequence(t)) + NodesOf(Sequence(e))
    case Loop(id, _, b) => [id] + NodesOf(Sequence(b))
    case Switch(id, b) => [id] + NodesOf(Sequence(b))
    case Compound(id, ss) => NodesOf(ss)
    case _ => [s.id]
  }

  function NodesOf(ss: seq<Stmt>): seq<NodeId>
    decreases SizeAll(ss), 1
  {
    if ss == [] then [] else Nodes(ss[0]) + NodesOf(ss[1..])
  }

  lemma {:induction false} SizeAllAppend(a: seq<Stmt>, b: seq<Stmt>)
    ensures SizeAll(a + b) == SizeAll(a) + SizeAll(b)
  {
    if a == [] {
      assert a + b == b;
    } else {
      assert (a + b)[1..] == a[1..] + b;
      SizeAllAppend(a[1..], b);
    }
  }

  lemma {:induction false} NodesOfAppend(a: seq<Stmt>, b: seq<Stmt>)
    ensures NodesOf(a + b) == NodesOf(a) + NodesOf(b)
    decreases |a|
  {
    if a == [] {
      assert a + b == b;
    } else {
      assert (a + b)[1..] == a[1..] + b;
      NodesOfAppend(a[1..], b);
    }
  }
}
