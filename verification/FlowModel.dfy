/** What the dataflow engine reads: the graph, and for each block the ordered
    references to variables and the declarations without initialiser. */
module FlowModel {
  import opened Collections
  import opened Paths
  import opened CfgSpec
  import opened FlowTheory

  /** One reference: `isReadToo` marks compound assignment and increments. */
  datatype Event = Event(name: string, isWrite: bool, isReadToo: bool)
  {
    predicate Reads()
    {
      !isWrite || isReadToo
    }

    predicate PureWrite()
    {
      isWrite && !isReadToo
    }
  }

  /** A local declared without initialiser, and the block that holds its
      declaration, if some block does. */
  datatype Decl = Decl(name: string, block: Option<int>)

  datatype Program = Program(cfg: Cfg, events: map<int, seq<Event>>, decls: seq<Decl>)
  {
    function EventsAt(b: int): seq<Event>
    {
      if b in events && b in cfg.blocks then events[b] else []
    }

    /** The arcs between live blocks. */
    ghost function Arcs(): set<(int, int)>
    {
      set a | a in cfg.Arcs() && a.0 in cfg.blocks && a.1 in cfg.blocks
    }

    /** The insertion order lists each block once. */
    ghost predicate Ordered()
    {
      && (forall b :: b in cfg.order <==> b in cfg.blocks)
      && NoRepeats(cfg.order)
    }
  }

  /** One event, found again as a position in the event list of a block. */
  datatype Site = Site(block: int, index: nat)

  predicate WritesVar(events: seq<Event>, x: string)
  {
    exists i :: 0 <= i < |events| && events[i].isWrite && events[i].name == x
  }

  /** The union of the facts of the predecessors of `b`. */
  method InSet<F(==,!new)>(p: Program, facts: map<int, set<F>>, b: int) returns (incoming: set<F>)
    requires facts.Keys == p.cfg.blocks.Keys && b in p.cfg.blocks
    ensures incoming == Incoming(facts, p.Arcs(), b)
  {
    var into := Predecessors(p.cfg.edges, b);
    incoming := {};
    var i := 0;
    while i < |into|
      invariant i <= |into|
      invariant forall f :: f in incoming <==> exists j :: 0 <= j < i && into[j].source in facts && f in facts[into[j].source]
    {
      if into[i].source in facts {
        incoming := incoming + facts[into[i].source];
      }
      i := i + 1;
    }
    forall f
      ensures f in incoming <==> f in Incoming(facts, p.Arcs(), b)
    {
      IncomingFact(facts, p.Arcs(), b, f);
      if f in incoming {
        var j :| 0 <= j < |into| && into[j].source in facts && f in facts[into[j].source];
        assert into[j] in into;
        ArcOfEdge(p.cfg.edges, into[j].source, b);
        assert (into[j].source, b) in p.Arcs();
      }
      if f in Incoming(facts, p.Arcs(), b) {
        var s :| (s, b) in p.Arcs() && s in facts && f in facts[s];
        ArcOfEdge(p.cfg.edges, s, b);
        var e :| e in p.cfg.edges && e.source == s && e.target == b;
        assert e in into;
        var j :| 0 <= j < |into| && into[j] == e;
      }
    }
  }

  /** The union of the facts of the successors of `b`. */
  method OutSet<F(==,!new)>(p: Program, facts: map<int, set<F>>, b: int) returns (outgoing: set<F>)
    requires facts.Keys == p.cfg.blocks.Keys && b in p.cfg.blocks
    ensures outgoing == Incoming(facts, Reverse(p.Arcs()), b)
  {
    var out := Successors(p.cfg.edges, b);
    outgoing := {};
    var i := 0;
    while i < |out|
      invariant i <= |out|
      invariant forall f :: f in outgoing <==> exists j :: 0 <= j < i && out[j].target in facts && f in facts[out[j].target]
    {
      if out[i].target in facts {
        outgoing := outgoing + facts[out[i].target];
      }
      i := i + 1;
    }
    forall f
      ensures f in outgoing <==> f in Incoming(facts, Reverse(p.Arcs()), b)
    {
      IncomingFact(facts, Reverse(p.Arcs()), b, f);
      if f in outgoing {
        var j :| 0 <= j < |out| && out[j].target in facts && f in facts[out[j].target];
        assert out[j] in out;
        ArcOfEdge(p.cfg.edges, b, out[j].target);
        assert (b, out[j].target) in p.Arcs();
        ReverseArc(p.Arcs(), b, out[j].target);
      }
      if f in Incoming(facts, Reverse(p.Arcs()), b) {
        var s :| (s, b) in Reverse(p.Arcs()) && s in facts && f in facts[s];
        ReverseArc(p.Arcs(), b, s);
        ArcOfEdge(p.cfg.edges, b, s);
        var e :| e in p.cfg.edges && e.source == b && e.target == s;
        assert e in out;
        var j :| 0 <= j < |out| && out[j] == e;
      }
    }
  }

  lemma ReverseArc(arcs: set<(int, int)>, x: int, y: int)
    ensures (y, x) in Reverse(arcs) <==> (x, y) in arcs
  {
    if (x, y) in arcs {
      assert ((x, y).1, (x, y).0) in Reverse(arcs);
    }
  }
}
