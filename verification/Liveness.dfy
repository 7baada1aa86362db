/** Live variables, and the dead stores found with them. */
module Liveness {
  import opened Collections
  import opened Paths
  import opened FlowTheory
  import opened FlowModel
  import opened EventPaths

  /** The first reference to `x` in a list of events is a read. */
  predicate NextReads(events: seq<Event>, x: string)
  {
    events != [] && if events[0].name == x then events[0].Reads() else NextReads(events[1..], x)
  }

  predicate Mentions(events: seq<Event>, x: string)
  {
    exists i :: 0 <= i < |events| && events[i].name == x
  }

  /** The events met along a list of blocks. */
  function Stream(p: Program, w: seq<int>): seq<Event>
  {
    if w == [] then [] else p.EventsAt(w[0]) + Stream(p, w[1..])
  }

  /** Variables a block reads before it writes them. */
  function Exposed(events: seq<Event>): set<string>
  {
    set i | 0 <= i < |events| && events[i].Reads() && !WritesVar(events[..i], events[i].name) :: events[i].name
  }

  function Defs(events: seq<Event>): set<string>
  {
    set i | 0 <= i < |events| && events[i].isWrite :: events[i].name
  }

  function Transfers(p: Program): Transfer<string>
  {
    (b: int, s: set<string>) => Exposed(p.EventsAt(b)) + (s - Defs(p.EventsAt(b)))
  }

  // ------------------------------------------------------------------
  // Events along a path
  // ------------------------------------------------------------------

  lemma {:induction false} NextReadsAppend(a: seq<Event>, b: seq<Event>, x: string)
    ensures NextReads(a + b, x) <==> if Mentions(a, x) then NextReads(a, x) else NextReads(b, x)
  {
    if a == [] {
      assert a + b == b;
    } else {
      assert (a + b)[1..] == a[1..] + b;
      NextReadsAppend(a[1..], b, x);
      MentionsCons(a, x);
    }
  }

  lemma MentionsCons(a: seq<Event>, x: string)
    requires a != []
    ensures Mentions(a, x) <==> a[0].name == x || Mentions(a[1..], x)
  {
    if i :| 0 <= i < |a| && a[i].name == x && i > 0 {
      assert a[1..][i - 1] == a[i];
    }
    if i :| 0 <= i < |a[1..]| && a[1..][i].name == x {
      assert a[i + 1] == a[1..][i];
    }
  }

  lemma {:induction false} NextReadsWitness(events: seq<Event>, x: string)
    ensures NextReads(events, x) <==>
              exists i :: 0 <= i < |events| && events[i].name == x && events[i].Reads() && !Mentions(events[..i], x)
    decreases |events|
  {
    if events != [] {
      NextReadsWitness(events[1..], x);
      if events[0].name == x {
        assert !Mentions(events[..0], x);
        forall i | 0 < i < |events|
          ensures Mentions(events[..i], x)
        {
          assert events[..i][0].name == x;
        }
      } else {
        forall i | 0 < i < |events|
          ensures Mentions(events[..i], x) <==> Mentions(events[1..][..i - 1], x)
        {
          MentionsCons(events[..i], x);
          assert events[..i][1..] == events[1..][..i - 1];
        }
        if i :| 0 <= i < |events| && events[i].name == x && events[i].Reads() && !Mentions(events[..i], x) {
          assert events[1..][i - 1] == events[i];
        }
        if i :| 0 <= i < |events[1..]| && events[1..][i].name == x && events[1..][i].Reads()
                && !Mentions(events[1..][..i], x) {
          assert events[i + 1] == events[1..][i];
        }
      }
    }
  }

  /** Exposed means that the first reference is a read. */
  lemma {:induction false} ExposedIsNextRead(events: seq<Event>, x: string)
    ensures x in Exposed(events) <==> NextReads(events, x)
    decreases |events|
  {
    if events != [] {
      ExposedIsNextRead(events[1..], x);
      ExposedCons(events, x);
    }
  }

  lemma WritesCons(a: seq<Event>, x: string)
    requires a != []
    ensures WritesVar(a, x) <==> (a[0].isWrite && a[0].name == x) || WritesVar(a[1..], x)
  {
    if i :| 0 <= i < |a| && a[i].isWrite && a[i].name == x && i > 0 {
      assert a[1..][i - 1] == a[i];
    }
    if i :| 0 <= i < |a[1..]| && a[1..][i].isWrite && a[1..][i].name == x {
      assert a[i + 1] == a[1..][i];
    }
  }

  lemma ExposedCons(events: seq<Event>, x: string)
    requires events != []
    ensures x in Exposed(events) <==>
              if events[0].name == x then events[0].Reads()
              else x in Exposed(events[1..])
  {
    var rest := events[1..];
    forall i | 0 < i < |events|
      ensures rest[i - 1] == events[i]
      ensures WritesVar(events[..i], x) <==> (events[0].isWrite && events[0].name == x) || WritesVar(rest[..i - 1], x)
    {
      WritesCons(events[..i], x);
      assert events[..i][1..] == rest[..i - 1];
    }
    if x in Exposed(events) {
      var i :| 0 <= i < |events| && events[i].Reads() && !WritesVar(events[..i], events[i].name) && events[i].name == x;
      if i > 0 {
        assert rest[i - 1].Reads() && !WritesVar(rest[..i - 1], rest[i - 1].name);
      }
    }
    if x in Exposed(rest) && !(events[0].isWrite && events[0].name == x) {
      var i :| 0 <= i < |rest| && rest[i].Reads() && !WritesVar(rest[..i], rest[i].name) && rest[i].name == x;
      assert events[i + 1] == rest[i];
      assert !WritesVar(events[..i + 1], x);
    }
    if events[0].name == x && events[0].Reads() {
      assert !WritesVar(events[..0], x);
    }
  }

  /** A variable that is mentioned is either read first or written. */
  lemma {:induction false} MentionedIsReadOrWritten(events: seq<Event>, x: string)
    ensures Mentions(events, x) <==> NextReads(events, x) || x in Defs(events)
    decreases |events|
  {
    if x in Defs(events) {
      var i :| 0 <= i < |events| && events[i].isWrite && events[i].name == x;
    }
    NextReadsWitness(events, x);
    if events != [] && Mentions(events, x) && !NextReads(events, x) {
      if events[0].name == x {
        assert events[0].isWrite;
      } else {
        MentionsCons(events, x);
        MentionedIsReadOrWritten(events[1..], x);
        var i :| 0 <= i < |events[1..]| && events[1..][i].isWrite && events[1..][i].name == x;
        assert events[i + 1] == events[1..][i];
      }
    }
  }

  // ------------------------------------------------------------------
  // Liveness of a path
  // ------------------------------------------------------------------

  lemma {:induction false} FoldIsNextRead(p: Program, r: seq<int>, x: string)
    ensures x in Fold(Transfers(p), r) <==> NextReads(Stream(p, Backwards(r)), x)
    decreases |r|
  {
    if r == [] {
      assert Backwards(r) == [];
    } else {
      var n := |r| - 1;
      var front, b := r[..n], r[n];
      var events := p.EventsAt(b);
      FoldIsNextRead(p, front, x);
      assert Backwards(r)[0] == b && Backwards(r)[1..] == Backwards(front);
      NextReadsAppend(events, Stream(p, Backwards(front)), x);
      ExposedIsNextRead(events, x);
      MentionedIsReadOrWritten(events, x);
    }
  }

  /** Some path from the start of `b` meets a read of `x` before any write. */
  ghost predicate LiveAtStart(p: Program, b: int, x: string)
  {
    exists w :: IsWalk(p.Arcs(), w) && w[0] == b && NextReads(Stream(p, w), x)
  }

  /** Some path out of `b` does. */
  ghost predicate LiveAtEnd(p: Program, b: int, x: string)
  {
    exists s :: (b, s) in p.Arcs() && LiveAtStart(p, s, x)
  }

  lemma PathFactIsLive(p: Program, b: int, x: string)
    ensures PathFact(Transfers(p), Reverse(p.Arcs()), b, x) <==> LiveAtStart(p, b, x)
  {
    if PathFact(Transfers(p), Reverse(p.Arcs()), b, x) {
      var r :| IsWalk(Reverse(p.Arcs()), r) && Last(r) == b && x in Fold(Transfers(p), r);
      BackwardsWalk(Reverse(p.Arcs()), r);
      ReverseTwice(p.Arcs());
      FoldIsNextRead(p, r, x);
    }
    if LiveAtStart(p, b, x) {
      var w :| IsWalk(p.Arcs(), w) && w[0] == b && NextReads(Stream(p, w), x);
      BackwardsWalk(p.Arcs(), w);
      assert Backwards(Backwards(w)) == w;
      FoldIsNextRead(p, Backwards(w), x);
    }
  }

  lemma EnteringIsLive(p: Program, b: int, x: string)
    ensures EnteringFact(Transfers(p), Reverse(p.Arcs()), b, x) <==> LiveAtEnd(p, b, x)
  {
    hide PathFact, LiveAtStart, Transfers, Reverse;
    forall s
      ensures PathFact(Transfers(p), Reverse(p.Arcs()), s, x) <==> LiveAtStart(p, s, x)
      ensures (s, b) in Reverse(p.Arcs()) <==> (b, s) in p.Arcs()
    {
      ReverseArc(p.Arcs(), b, s);
      PathFactIsLive(p, s, x);
    }
  }

  // ------------------------------------------------------------------
  // Told of the events themselves
  // ------------------------------------------------------------------

  /** Event `i` of the `k`th block of the path lies before event `j` of the `l`th,
      and not before event `from` of the first. */
  ghost predicate Between(from: int, k: int, i: int, l: int, j: int)
  {
    (k == 0 ==> from <= i) && (k < l || (k == l && i < j))
  }

  /** From event `from` of its first block on, the path meets a read of `x`, and
      no event before that read is of `x`. */
  ghost predicate MeetsRead(p: Program, w: seq<int>, from: int, x: string)
  {
    exists l, j :: 0 <= l < |w| && (l == 0 ==> from <= j) && ReadsAt(p, w[l], j, x) && NoneBefore(p, w, from, l, j, x)
  }

  ghost predicate NoneBefore(p: Program, w: seq<int>, from: int, l: int, j: int, x: string)
  {
    forall k, i :: 0 <= k < |w| && Between(from, k, i, l, j) ==> !Names(p, w[k], i, x)
  }

  lemma MentionedSomewhere(p: Program, b: int, from: nat, x: string)
    requires b in p.cfg.blocks && from <= |p.EventsAt(b)|
    ensures Mentions(p.EventsAt(b)[from..], x) <==> exists i :: from <= i && Names(p, b, i, x)
  {
    var rest := p.EventsAt(b)[from..];
    if i :| 0 <= i < |rest| && rest[i].name == x {
      assert Names(p, b, from + i, x);
    }
    if i :| from <= i && Names(p, b, i, x) {
      assert rest[i - from].name == x;
    }
  }

  lemma ReadInBlock(p: Program, b: int, from: nat, x: string)
    requires b in p.cfg.blocks && from <= |p.EventsAt(b)|
    ensures NextReads(p.EventsAt(b)[from..], x) <==>
      exists j :: from <= j && ReadsAt(p, b, j, x) && forall i :: from <= i < j ==> !Names(p, b, i, x)
  {
    var rest := p.EventsAt(b)[from..];
    NextReadsWitness(rest, x);
    if i :| 0 <= i < |rest| && rest[i].name == x && rest[i].Reads() && !Mentions(rest[..i], x) {
      forall k | from <= k < from + i
        ensures !Names(p, b, k, x)
      {
        assert rest[..i][k - from] == p.EventsAt(b)[k];
      }
      assert ReadsAt(p, b, from + i, x);
    }
    if j :| from <= j && ReadsAt(p, b, j, x) && forall i :: from <= i < j ==> !Names(p, b, i, x) {
      var i := j - from;
      forall k | 0 <= k < i
        ensures rest[..i][k].name != x
      {
        assert !Names(p, b, from + k, x);
      }
      assert rest[i].name == x && rest[i].Reads() && !Mentions(rest[..i], x);
    }
  }

  /** Whether the path meets a read is decided in its first block, if that has
      any event of `x`, and on the rest of the path otherwise. */
  lemma MeetsFirst(p: Program, w: seq<int>, from: nat, x: string)
    requires |w| > 0
    ensures MeetsRead(p, w, from, x) <==>
      if exists i :: from <= i && Names(p, w[0], i, x) then
        exists j :: from <= j && ReadsAt(p, w[0], j, x) && forall i :: from <= i < j ==> !Names(p, w[0], i, x)
      else MeetsRead(p, w[1..], 0, x)
  {
    if MeetsRead(p, w, from, x) {
      var l, j :| 0 <= l < |w| && (l == 0 ==> from <= j) && ReadsAt(p, w[l], j, x) && NoneBefore(p, w, from, l, j, x);
      if l == 0 {
        forall i | from <= i < j
          ensures !Names(p, w[0], i, x)
        {
          assert Between(from, 0, i, 0, j);
        }
      } else {
        MeetsLater(p, w, from, l, j, x);
      }
    }
    if i :| from <= i && Names(p, w[0], i, x) {
      if j :| from <= j && ReadsAt(p, w[0], j, x) && forall i :: from <= i < j ==> !Names(p, w[0], i, x) {
        assert NoneBefore(p, w, from, 0, j, x);
      }
    } else if MeetsRead(p, w[1..], 0, x) {
      MeetsBefore(p, w, from, x);
    }
  }

  lemma MeetsLater(p: Program, w: seq<int>, from: nat, l: int, j: int, x: string)
    requires 0 < l < |w| && ReadsAt(p, w[l], j, x) && NoneBefore(p, w, from, l, j, x)
    ensures MeetsRead(p, w[1..], 0, x) && !exists i :: from <= i && Names(p, w[0], i, x)
  {
    var v := w[1..];
    forall i | from <= i
      ensures !Names(p, w[0], i, x)
    {
      assert Between(from, 0, i, l, j);
    }
    forall k, i | 0 <= k < |v| && Between(0, k, i, l - 1, j)
      ensures !Names(p, v[k], i, x)
    {
      assert Between(from, k + 1, i, l, j);
    }
    assert NoneBefore(p, v, 0, l - 1, j, x) && ReadsAt(p, v[l - 1], j, x);
  }

  lemma MeetsBefore(p: Program, w: seq<int>, from: nat, x: string)
    requires |w| > 0 && MeetsRead(p, w[1..], 0, x) && forall i :: from <= i ==> !Names(p, w[0], i, x)
    ensures MeetsRead(p, w, from, x)
  {
    var v := w[1..];
    var l, j :| 0 <= l < |v| && (l == 0 ==> 0 <= j) && ReadsAt(p, v[l], j, x) && NoneBefore(p, v, 0, l, j, x);
    forall k, i | 0 <= k < |w| && Between(from, k, i, l + 1, j)
      ensures !Names(p, w[k], i, x)
    {
      if k > 0 && 0 <= i {
        assert Between(0, k - 1, i, l, j);
        assert v[k - 1] == w[k];
      }
    }
    assert ReadsAt(p, w[l + 1], j, x) && NoneBefore(p, w, from, l + 1, j, x);
  }

  lemma {:induction false} StreamMeetsRead(p: Program, w: seq<int>, from: nat, x: string)
    requires |w| > 0 && forall k :: 0 <= k < |w| ==> w[k] in p.cfg.blocks
    requires from <= |p.EventsAt(w[0])|
    ensures NextReads(p.EventsAt(w[0])[from..] + Stream(p, w[1..]), x) <==> MeetsRead(p, w, from, x)
    decreases |w|
  {
    hide MeetsRead, NextReads, Mentions, ReadsAt, Names;
    var rest, v := p.EventsAt(w[0])[from..], w[1..];
    NextReadsAppend(rest, Stream(p, v), x);
    MentionedSomewhere(p, w[0], from, x);
    ReadInBlock(p, w[0], from, x);
    MeetsFirst(p, w, from, x);
    if v == [] {
      NothingMet(p, x);
    } else {
      assert forall k :: 0 <= k < |v| ==> v[k] == w[k + 1];
      StreamMeetsRead(p, v, 0, x);
      assert p.EventsAt(v[0])[0..] == p.EventsAt(v[0]);
    }
  }

  lemma NothingMet(p: Program, x: string)
    ensures !MeetsRead(p, [], 0, x) && !NextReads(Stream(p, []), x)
  {
  }

  /** Some path that goes on after the last event of `b` meets a read of `x` first. */
  ghost predicate ReadAfterEnd(p: Program, b: int, x: string)
  {
    exists w :: Route(p.cfg, w) && w[0] == b && MeetsRead(p, w, if b in p.events then |p.events[b]| else 0, x)
  }

  /** Some path that goes on after event `i` of `b` meets a read of `x` first. */
  ghost predicate ReadAfter(p: Program, b: int, i: int, x: string)
  {
    exists w :: Route(p.cfg, w) && w[0] == b && MeetsRead(p, w, i + 1, x)
  }

  lemma WalkInBlocks(p: Program, w: seq<int>)
    requires |w| > 0 && w[0] in p.cfg.blocks
    ensures Route(p.cfg, w) <==> IsWalk(p.Arcs(), w)
  {
    RouteIsWalk(p, w);
    if IsWalk(p.Arcs(), w) && |w| > 1 {
      assert (w[|w| - 2], w[|w| - 1]) in p.Arcs();
    }
  }

  lemma LiveIsReadAfterEnd(p: Program, b: int, x: string)
    requires b in p.cfg.blocks
    ensures LiveAtEnd(p, b, x) <==> ReadAfterEnd(p, b, x)
  {
    hide MeetsRead, NextReads;
    var n := |p.EventsAt(b)|;
    forall w | |w| > 0 && w[0] == b
      ensures Route(p.cfg, w) <==> IsWalk(p.Arcs(), w)
      ensures Route(p.cfg, w) ==> (MeetsRead(p, w, n, x) <==> NextReads(Stream(p, w[1..]), x))
    {
      WalkInBlocks(p, w);
      if Route(p.cfg, w) {
        StreamMeetsRead(p, w, n, x);
        assert p.EventsAt(b)[n..] + Stream(p, w[1..]) == Stream(p, w[1..]);
      }
    }
    if LiveAtEnd(p, b, x) {
      var s :| (b, s) in p.Arcs() && LiveAtStart(p, s, x);
      var w :| IsWalk(p.Arcs(), w) && w[0] == s && NextReads(Stream(p, w), x);
      assert IsWalk(p.Arcs(), [b, s]);
      JoinWalks(p.Arcs(), [b, s], w);
      var v := [b, s] + w[1..];
      assert v[1..] == w && v[0] == b;
    }
    if w :| |w| > 0 && w[0] == b && IsWalk(p.Arcs(), w) && NextReads(Stream(p, w[1..]), x) {
      if |w| > 1 {
        WalkBack(p.Arcs(), w, 1);
        assert (w[0], w[1]) in p.Arcs();
        assert LiveAtStart(p, w[1], x);
      } else {
        NothingMet(p, x);
      }
    }
  }

  lemma LaterIsReadAfter(p: Program, b: int, i: nat, x: string)
    requires b in p.cfg.blocks && i < |p.EventsAt(b)|
    ensures ReadLater(p, b, i, x) <==> ReadAfter(p, b, i, x)
  {
    hide MeetsRead, NextReads;
    forall w | |w| > 0 && w[0] == b
      ensures Route(p.cfg, w) <==> IsWalk(p.Arcs(), w)
      ensures Route(p.cfg, w) ==>
        (MeetsRead(p, w, i + 1, x) <==> NextReads(p.EventsAt(b)[i + 1..] + Stream(p, w[1..]), x))
    {
      WalkInBlocks(p, w);
      if Route(p.cfg, w) {
        StreamMeetsRead(p, w, i + 1, x);
      }
    }
  }

  function Universe(p: Program): set<string>
  {
    set b, x | b in p.cfg.blocks && x in Exposed(p.EventsAt(b)) :: x
  }

  lemma TransfersAreSound(p: Program)
    ensures Monotone(Transfers(p)) && FactByFact(Transfers(p)) && Bounded(Transfers(p), Universe(p))
  {
    var t := Transfers(p);
    forall b, s, f | f in t(b, s)
      ensures f in t(b, {}) || exists x :: x in s && f in t(b, {x})
    {
      if f !in Exposed(p.EventsAt(b)) {
        assert f in s && f in t(b, {f});
      }
    }
    forall b, s | s <= Universe(p)
      ensures t(b, s) <= Universe(p)
    {
      forall x | x in Exposed(p.EventsAt(b))
        ensures x in Universe(p)
      {
        assert p.EventsAt(b) != [];
        assert b in p.cfg.blocks;
      }
    }
  }

  /** One write: the variable, and which event of the block it is. */
  datatype Write = Write(name: string, index: nat)

  /** Every write among the events, once, in event order. */
  ghost predicate ListsWrites(events: seq<Event>, writes: seq<Write>)
  {
    && (forall i, j :: 0 <= i < j < |writes| ==> writes[i].index < writes[j].index)
    && (forall w :: w in writes <==> w.index < |events| && events[w.index].isWrite && events[w.index].name == w.name)
  }

  lemma WritesName(events: seq<Event>, writes: seq<Write>)
    requires ListsWrites(events, writes)
    ensures (set w | w in writes :: w.name) == Defs(events)
  {
    forall x | x in Defs(events)
      ensures x in set w | w in writes :: w.name
    {
      var i :| 0 <= i < |events| && events[i].isWrite && events[i].name == x;
      assert Write(x, i) in writes;
    }
  }

  lemma WritesSnoc(events: seq<Event>, i: nat, writes: seq<Write>)
    requires i < |events| && ListsWrites(events[..i], writes)
    ensures ListsWrites(events[..i + 1], if events[i].isWrite then writes + [Write(events[i].name, i)] else writes)
  {
    var a, b := events[..i], events[..i + 1];
    var more := if events[i].isWrite then [Write(events[i].name, i)] else [];
    forall k | 0 <= k < |writes|
      ensures writes[k].index < i
    {
      assert writes[k] in writes;
    }
    forall w
      ensures w in writes + more <==> w.index < |b| && b[w.index].isWrite && b[w.index].name == w.name
    {
      assert w in writes + more <==> w in writes || w in more;
    }
    assert writes + [] == writes;
  }

  /** Some event of `x` reads it, and none before that is of `x`. */
  ghost predicate FirstIsRead(events: seq<Event>, x: string)
  {
    exists j :: 0 <= j < |events| && events[j].name == x && (!events[j].isWrite || events[j].isReadToo)
                && !Mentions(events[..j], x)
  }

  /** Writes of a block in order, and its upward-exposed reads. */
  method BlockDefUse(events: seq<Event>) returns (writes: seq<Write>, exposed: set<string>)
    ensures ListsWrites(events, writes)
    ensures forall x :: x in exposed <==> FirstIsRead(events, x)
    ensures forall x :: x in exposed <==> NextReads(events, x)
    ensures exposed == Exposed(events)
  {
    hide ListsWrites;
    writes, exposed := [], {};
    var locallyDefined: set<string> := {};
    NoWrites(events);
    var i := 0;
    while i < |events|
      invariant i <= |events|
      invariant ListsWrites(events[..i], writes)
      invariant locallyDefined == set j | 0 <= j < i && events[j].isWrite :: events[j].name
      invariant exposed == set j | 0 <= j < i && events[j].Reads() && !WritesVar(events[..j], events[j].name) :: events[j].name
    {
      assert WritesVar(events[..i], events[i].name) <==> events[i].name in locallyDefined by {
        if events[i].name in locallyDefined {
          var j :| 0 <= j < i && events[j].isWrite && events[j].name == events[i].name;
          assert events[..i][j] == events[j];
        }
      }
      if events[i].Reads() && events[i].name !in locallyDefined {
        exposed := exposed + {events[i].name};
      }
      WritesSnoc(events, i, writes);
      if events[i].isWrite {
        writes := writes + [Write(events[i].name, i)];
        locallyDefined := locallyDefined + {events[i].name};
      }
      i := i + 1;
    }
    assert events[..i] == events;
    forall x
      ensures x in exposed <==> NextReads(events, x)
      ensures x in exposed <==> FirstIsRead(events, x)
    {
      ExposedIsNextRead(events, x);
      NextReadsWitness(events, x);
    }
  }

  lemma NoWrites(events: seq<Event>)
    ensures ListsWrites(events[..0], [])
  {
  }

  /** LIVE_IN of one block from its LIVE_OUT. */
  method FlowThrough(p: Program, b: int, out: set<string>) returns (now: set<string>)
    requires b in p.cfg.blocks
    ensures now == Transfers(p)(b, out)
  {
    var writes, exposed := BlockDefUse(p.EventsAt(b));
    WritesName(p.EventsAt(b), writes);
    now := exposed + (out - set w | w in writes :: w.name);
  }

  /** One visit to one block. */
  method VisitBlock(p: Program, b: int, in0: map<int, set<string>>, out0: map<int, set<string>>)
    returns (liveIn: map<int, set<string>>, liveOut: map<int, set<string>>, changed: bool)
    requires b in p.cfg.blocks && Underway(p, in0, out0)
    ensures Underway(p, liveIn, liveOut)
    ensures changed ==> Advanced(p, in0, out0, liveIn, liveOut)
    ensures !changed ==> liveIn == in0 && liveOut == out0 && Settled(p, liveIn, liveOut, b)
  {
    hide Transfers, Universe, Monotone, FactByFact, Bounded, Rising, Missing, Incoming;
    ghost var t, arcs, universe := Transfers(p), Reverse(p.Arcs()), Universe(p);
    TransfersAreSound(p);
    liveIn, liveOut := in0, out0;
    var out := OutSet(p, liveIn, b);
    var now := FlowThrough(p, b, out);
    changed := now != liveIn[b] || out != liveOut[b];
    Visit(t, arcs, liveIn, universe, b);
    IncomingBounded(t, arcs, liveIn, universe, b);
    if changed {
      OutVisit(liveIn, liveOut, arcs, universe, b, now, out);
      liveIn := liveIn[b := now];
      liveOut := liveOut[b := out];
    }
  }

  /** One visit to every block; nothing changed only if all was settled. */
  method Sweep(p: Program, in0: map<int, set<string>>, out0: map<int, set<string>>)
    returns (liveIn: map<int, set<string>>, liveOut: map<int, set<string>>, changed: bool)
    requires p.Ordered() && Underway(p, in0, out0)
    ensures Underway(p, liveIn, liveOut)
    ensures changed ==> Advanced(p, in0, out0, liveIn, liveOut)
    ensures !changed ==> liveIn == in0 && liveOut == out0
    ensures !changed ==> forall b :: b in p.cfg.order ==> Settled(p, liveIn, liveOut, b)
  {
    hide Underway, Settled, Universe, Missing;
    liveIn, liveOut, changed := in0, out0, false;
    var i := 0;
    while i < |p.cfg.order|
      invariant i <= |p.cfg.order|
      invariant Underway(p, liveIn, liveOut)
      invariant if changed then Advanced(p, in0, out0, liveIn, liveOut) else liveIn == in0 && liveOut == out0
      invariant !changed ==> forall j :: 0 <= j < i ==> Settled(p, liveIn, liveOut, p.cfg.order[j])
    {
      assert p.cfg.order[i] in p.cfg.order;
      var again;
      liveIn, liveOut, again := VisitBlock(p, p.cfg.order[i], liveIn, liveOut);
      changed := changed || again;
      i := i + 1;
    }
  }

  /** The sets stay below the least solution while they grow. */
  ghost predicate Underway(p: Program, liveIn: map<int, set<string>>, liveOut: map<int, set<string>>)
  {
    && liveIn.Keys == liveOut.Keys == p.cfg.blocks.Keys
    && Rising(Transfers(p), Reverse(p.Arcs()), liveIn, Universe(p))
    && forall b :: b in liveOut ==> liveOut[b] <= Incoming(liveIn, Reverse(p.Arcs()), b)
  }

  ghost predicate Settled(p: Program, liveIn: map<int, set<string>>, liveOut: map<int, set<string>>, b: int)
  {
    && b in liveIn && b in liveOut
    && liveOut[b] == Incoming(liveIn, Reverse(p.Arcs()), b) && liveIn[b] == Transfers(p)(b, liveOut[b])
  }

  /** Some LIVE_IN has grown, or none has and some LIVE_OUT has. */
  ghost predicate Advanced(p: Program, in0: map<int, set<string>>, out0: map<int, set<string>>,
                           liveIn: map<int, set<string>>, liveOut: map<int, set<string>>)
  {
    || Missing(liveIn, Universe(p)) < Missing(in0, Universe(p))
    || (liveIn == in0 && Missing(liveOut, Universe(p)) < Missing(out0, Universe(p)))
  }

  /** The live variables at the end of every block. */
  method LiveOut(p: Program) returns (liveOut: map<int, set<string>>)
    requires p.Ordered()
    ensures liveOut.Keys == p.cfg.blocks.Keys
    ensures forall b, x :: b in liveOut ==> (x in liveOut[b] <==> ReadAfterEnd(p, b, x))
    ensures forall b, x :: b in liveOut ==> (x in liveOut[b] <==> LiveAtEnd(p, b, x))
  {
    hide Transfers, Universe, Rising, Missing, Incoming, LiveAtEnd, Solution, ReadAfterEnd;
    TransfersAreSound(p);
    var liveIn := map b | b in p.cfg.blocks :: {};
    liveOut := map b | b in p.cfg.blocks :: {};
    RisingFromEmpty(Transfers(p), Reverse(p.Arcs()), liveIn, Universe(p));
    var changed := true;
    while changed
      invariant Underway(p, liveIn, liveOut)
      invariant !changed ==> forall b :: b in p.cfg.order ==> Settled(p, liveIn, liveOut, b)
      decreases Missing(liveIn, Universe(p)), Missing(liveOut, Universe(p)), changed
    {
      liveIn, liveOut, changed := Sweep(p, liveIn, liveOut);
    }
    Converged(p, liveIn, liveOut);
    forall b, x | b in liveOut
      ensures x in liveOut[b] <==> ReadAfterEnd(p, b, x)
    {
      LiveIsReadAfterEnd(p, b, x);
    }
  }

  lemma IncomingBounded(t: Transfer<string>, arcs: set<(int, int)>, x: map<int, set<string>>, universe: set<string>, b: int)
    requires Rising(t, arcs, x, universe)
    ensures Incoming(x, arcs, b) <= universe
  {
    forall f | f in Incoming(x, arcs, b)
      ensures f in universe
    {
      IncomingFact(x, arcs, b, f);
    }
  }

  /** Recording a visit keeps LIVE_OUT below what flows in, and makes progress. */
  lemma OutVisit(liveIn: map<int, set<string>>, liveOut: map<int, set<string>>, arcs: set<(int, int)>,
                 universe: set<string>, b: int, now: set<string>, out: set<string>)
    requires liveIn.Keys == liveOut.Keys && b in liveIn && liveIn[b] <= now
    requires forall c :: c in liveOut ==> liveOut[c] <= Incoming(liveIn, arcs, c)
    requires out == Incoming(liveIn, arcs, b) && out <= universe
    ensures forall c :: c in liveOut ==> liveOut[b := out][c] <= Incoming(liveIn[b := now], arcs, c)
    ensures out != liveOut[b] ==> Missing(liveOut[b := out], universe) < Missing(liveOut, universe)
    ensures now == liveIn[b] ==> liveIn[b := now] == liveIn
    ensures out == liveOut[b] ==> liveOut[b := out] == liveOut
  {
    hide Incoming;
    forall c | c in liveOut
      ensures liveOut[b := out][c] <= Incoming(liveIn[b := now], arcs, c)
    {
      IncomingGrows(liveIn, liveIn[b := now], arcs, c);
    }
    if out != liveOut[b] {
      var x :| x in out && x !in liveOut[b];
      assert (b, x) in Missing(liveOut, universe) && (b, x) !in Missing(liveOut[b := out], universe);
    }
  }

  lemma Converged(p: Program, liveIn: map<int, set<string>>, liveOut: map<int, set<string>>)
    requires p.Ordered() && liveIn.Keys == liveOut.Keys == p.cfg.blocks.Keys
    requires Rising(Transfers(p), Reverse(p.Arcs()), liveIn, Universe(p))
    requires forall b :: b in p.cfg.order ==>
               (liveOut[b] == Incoming(liveIn, Reverse(p.Arcs()), b) && liveIn[b] == Transfers(p)(b, liveOut[b]))
    ensures forall b, x :: b in liveOut ==> (x in liveOut[b] <==> LiveAtEnd(p, b, x))
  {
    var t, arcs := Transfers(p), Reverse(p.Arcs());
    TransfersAreSound(p);
    assert PostSolution(t, arcs, liveIn);
    assert ArcsWithin(arcs, liveIn.Keys);
    JustifiedPostSolutionIsExact(t, arcs, liveIn);
    hide Transfers, Incoming, PathFact;
    forall b, x | b in liveOut
      ensures x in liveOut[b] <==> LiveAtEnd(p, b, x)
    {
      IncomingFact(liveIn, arcs, b, x);
      assert x in liveOut[b] <==> exists s :: (s, b) in arcs && s in liveIn && x in liveIn[s];
      forall s
        ensures (s, b) in arcs <==> (b, s) in p.Arcs()
        ensures PathFact(t, arcs, s, x) <==> LiveAtStart(p, s, x)
      {
        ReverseArc(p.Arcs(), b, s);
        PathFactIsLive(p, s, x);
      }
    }
  }

  // ------------------------------------------------------------------
  // Dead stores
  // ------------------------------------------------------------------

  /** Some path that goes on right after event `i` of block `b` meets a read of
      `x` before any write of it. */
  ghost predicate ReadLater(p: Program, b: int, i: nat, x: string)
    requires i < |p.EventsAt(b)|
  {
    exists w :: IsWalk(p.Arcs(), w) && w[0] == b && NextReads(p.EventsAt(b)[i + 1..] + Stream(p, w[1..]), x)
  }

  ghost predicate DeadStore(p: Program, b: int, i: int)
  {
    && b in p.cfg.blocks && 0 <= i < |p.EventsAt(b)|
    && p.EventsAt(b)[i].PureWrite()
    && !ReadLater(p, b, i, p.EventsAt(b)[i].name)
  }

  /** Live after some events of a block, given what is live at its end. */
  ghost predicate LiveAfter(rest: seq<Event>, liveOut: set<string>, x: string)
  {
    if Mentions(rest, x) then NextReads(rest, x) else x in liveOut
  }

  lemma LiveAfterIsReadLater(p: Program, b: int, i: nat, liveOut: set<string>, x: string)
    requires i < |p.EventsAt(b)| && (x in liveOut <==> LiveAtEnd(p, b, x))
    ensures LiveAfter(p.EventsAt(b)[i + 1..], liveOut, x) <==> ReadLater(p, b, i, x)
  {
    var rest := p.EventsAt(b)[i + 1..];
    if LiveAfter(rest, liveOut, x) {
      if Mentions(rest, x) {
        assert IsWalk(p.Arcs(), [b]);
        assert [b][1..] == [];
        assert rest + Stream(p, [b][1..]) == rest;
      } else {
        var s :| (b, s) in p.Arcs() && LiveAtStart(p, s, x);
        var w :| IsWalk(p.Arcs(), w) && w[0] == s && NextReads(Stream(p, w), x);
        assert IsWalk(p.Arcs(), [b, s]);
        JoinWalks(p.Arcs(), [b, s], w);
        var v := [b, s] + w[1..];
        assert v[1..] == w;
        NextReadsAppend(rest, Stream(p, w), x);
        assert v[0] == b && NextReads(rest + Stream(p, v[1..]), x);
      }
    }
    if ReadLater(p, b, i, x) {
      var w :| IsWalk(p.Arcs(), w) && w[0] == b && NextReads(rest + Stream(p, w[1..]), x);
      NextReadsAppend(rest, Stream(p, w[1..]), x);
      if !Mentions(rest, x) {
        WalkBack(p.Arcs(), w, 1);
        assert (w[0], w[1]) in p.Arcs();
        assert LiveAtStart(p, w[1], x);
      }
    }
  }

  method DeadStores(p: Program) returns (findings: seq<Site>)
    requires p.Ordered()
    ensures forall b, i: nat :: Site(b, i) in findings <==>
      && b in p.cfg.blocks && b in p.events && i < |p.events[b]|
      && p.events[b][i].isWrite && !p.events[b][i].isReadToo && !ReadAfter(p, b, i, p.events[b][i].name)
    ensures forall b, i: nat :: Site(b, i) in findings <==> DeadStore(p, b, i)
    ensures NoRepeats(findings)
  {
    hide LiveAtEnd, ReadLater, Mentions, NextReads, ReadAfterEnd, ReadAfter;
    var liveOut := LiveOut(p);
    findings := [];
    var k := 0;
    while k < |p.cfg.order|
      invariant k <= |p.cfg.order|
      invariant forall b, i: nat :: Site(b, i) in findings <==> b in p.cfg.order[..k] && DeadStore(p, b, i)
      invariant NoRepeats(findings)
    {
      var b := p.cfg.order[k];
      assert b in p.cfg.blocks;
      var found := ScanStores(p, b, liveOut[b]);
      forall s | s in findings
        ensures s !in found
      {
        assert Site(s.block, s.index) in findings;
        assert b !in p.cfg.order[..k];
      }
      forall i: nat | i < |p.EventsAt(b)|
        ensures LiveAfter(p.EventsAt(b)[i + 1..], liveOut[b], p.EventsAt(b)[i].name)
                <==> ReadLater(p, b, i, p.EventsAt(b)[i].name)
      {
        LiveAfterIsReadLater(p, b, i, liveOut[b], p.EventsAt(b)[i].name);
      }
      NoRepeatsAppend(findings, found);
      findings := findings + found;
      assert p.cfg.order[..k + 1] == p.cfg.order[..k] + [b];
      k := k + 1;
    }
    assert p.cfg.order[..k] == p.cfg.order;
    forall b, i: nat | b in p.cfg.blocks && i < |p.EventsAt(b)|
      ensures ReadLater(p, b, i, p.EventsAt(b)[i].name) <==> ReadAfter(p, b, i, p.EventsAt(b)[i].name)
    {
      LaterIsReadAfter(p, b, i, p.EventsAt(b)[i].name);
    }
  }

  /** One backward pass over the events of a block. */
  method ScanStores(p: Program, b: int, liveOut: set<string>) returns (found: seq<Site>)
    ensures forall c, i: nat :: Site(c, i) in found <==>
              && c == b && i < |p.EventsAt(b)|
              && p.EventsAt(b)[i].PureWrite()
              && !LiveAfter(p.EventsAt(b)[i + 1..], liveOut, p.EventsAt(b)[i].name)
    ensures NoRepeats(found)
  {
    var events := p.EventsAt(b);
    var live := liveOut;
    found := [];
    var i := |events|;
    while i > 0
      invariant 0 <= i <= |events|
      invariant forall x :: x in live <==> LiveAfter(events[i..], liveOut, x)
      invariant forall c, j: nat :: Site(c, j) in found <==>
                  && c == b && i <= j < |events|
                  && events[j].PureWrite() && !LiveAfter(events[j + 1..], liveOut, events[j].name)
      invariant NoRepeats(found)
    {
      i := i - 1;
      var e := events[i];
      assert events[i..][1..] == events[i + 1..];
      forall x
        ensures Mentions(events[i..], x) <==> e.name == x || Mentions(events[i + 1..], x)
      {
        MentionsCons(events[i..], x);
      }
      if e.PureWrite() {
        if e.name !in live {
          found := found + [Site(b, i)];
        }
        live := live - {e.name};
      }
      if e.Reads() {
        live := live + {e.name};
      }
    }
  }
}
