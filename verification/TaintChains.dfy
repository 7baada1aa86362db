/** How taint travels along a list of operations: a source, then copies. */
module TaintChains {

  /** One node of interest in scan order: an assignment with the names and
      callees found on its right-hand side, or a call with the names of its
      arguments. Names may be missing, which reads as the empty string. */
  datatype Op =
    | Assign(lhs: string, callees: seq<string>, names: seq<string>)
    | Call(callee: string, args: seq<string>)

  /** The operation gives the variable a new value. */
  ghost predicate Sets(op: Op, x: string)
  {
    op.Assign? && op.lhs == x && x != ""
  }

  /** Nothing between the two positions gives the variable a new value. */
  ghost predicate Untouched(ops: seq<Op>, x: string, i: int, j: int)
  {
    forall k :: i < k < j && 0 <= k < |ops| ==> !Sets(ops[k], x)
  }

  ghost predicate CallsSource(op: Op, sources: set<string>)
  {
    op.Assign? && exists c :: c in op.callees && c in sources
  }

  ghost predicate ReadsName(op: Op, x: string)
  {
    op.Assign? && x in op.names
  }

  /** Operation `j` reads what operation `i` gave to its variable. */
  ghost predicate Passes(ops: seq<Op>, i: int, j: int)
  {
    && 0 <= i < j < |ops| && ops[i].Assign?
    && ReadsName(ops[j], ops[i].lhs) && Untouched(ops, ops[i].lhs, i, j)
  }

  /** The first operation calls a source, or reads a variable tainted at the start. */
  ghost predicate Begins(sources: set<string>, start: set<string>, ops: seq<Op>, i: int)
  {
    && 0 <= i < |ops|
    && (CallsSource(ops[i], sources) || exists y :: y in start && ReadsName(ops[i], y) && Untouched(ops, y, -1, i))
  }

  /** Assignments at rising positions, each of which reads the variable that the one
      before assigned, still with that value; the last assigns `x` for the last time. */
  ghost predicate Chain(sources: set<string>, start: set<string>, ops: seq<Op>, c: seq<int>, x: string)
  {
    && |c| > 0
    && (forall k :: 0 <= k < |c| ==> 0 <= c[k] < |ops| && ops[c[k]].Assign? && ops[c[k]].lhs != "")
    && Begins(sources, start, ops, c[0])
    && (forall k :: 0 < k < |c| ==> Passes(ops, c[k - 1], c[k]))
    && ops[c[|c| - 1]].lhs == x && Untouched(ops, x, c[|c| - 1], |ops|)
  }

  /** The variable holds taint after the operations. */
  ghost predicate Carried(sources: set<string>, start: set<string>, ops: seq<Op>, x: string)
  {
    (x in start && Untouched(ops, x, -1, |ops|)) || exists c :: Chain(sources, start, ops, c, x)
  }

  /** The operations of the blocks of a list, one block after the other. */
  function Along(ops: map<int, seq<Op>>, w: seq<int>): seq<Op>
  {
    if w == [] then [] else Along(ops, w[..|w| - 1]) + if w[|w| - 1] in ops then ops[w[|w| - 1]] else []
  }

  // ----- One more operation -----

  lemma UntouchedFront(ops: seq<Op>, op: Op, x: string, i: int, j: int)
    requires j <= |ops|
    ensures Untouched(ops + [op], x, i, j) <==> Untouched(ops, x, i, j)
  {
    assert forall k :: 0 <= k < |ops| ==> (ops + [op])[k] == ops[k];
  }

  lemma UntouchedThrough(ops: seq<Op>, op: Op, x: string, i: int)
    requires i < |ops|
    ensures Untouched(ops + [op], x, i, |ops| + 1) <==> Untouched(ops, x, i, |ops|) && !Sets(op, x)
  {
    assert forall k :: 0 <= k < |ops| ==> (ops + [op])[k] == ops[k];
    assert (ops + [op])[|ops|] == op;
  }

  lemma BeginsFront(sources: set<string>, start: set<string>, ops: seq<Op>, op: Op, i: int)
    requires i < |ops|
    ensures Begins(sources, start, ops + [op], i) <==> Begins(sources, start, ops, i)
  {
    hide Untouched;
    forall y
      ensures Untouched(ops + [op], y, -1, i) <==> Untouched(ops, y, -1, i)
    {
      UntouchedFront(ops, op, y, -1, i);
    }
  }

  lemma PassesFront(ops: seq<Op>, op: Op, i: int, j: int)
    requires j < |ops|
    ensures Passes(ops + [op], i, j) <==> Passes(ops, i, j)
  {
    hide Untouched;
    if 0 <= i < j && ops[i].Assign? {
      UntouchedFront(ops, op, ops[i].lhs, i, j);
    }
  }

  /** A chain that ends before the last operation. */
  lemma ChainFront(sources: set<string>, start: set<string>, ops: seq<Op>, op: Op, c: seq<int>, x: string)
    requires |c| > 0 && c[|c| - 1] < |ops|
    ensures Chain(sources, start, ops + [op], c, x) <==> Chain(sources, start, ops, c, x) && !Sets(op, x)
  {
    hide Untouched, Begins, Passes, Sets;
    if Chain(sources, start, ops + [op], c, x) || Chain(sources, start, ops, c, x) {
      RisingBelow(sources, start, ops, op, c, x);
      BeginsFront(sources, start, ops, op, c[0]);
      UntouchedThrough(ops, op, x, c[|c| - 1]);
      forall k | 0 < k < |c|
        ensures Passes(ops + [op], c[k - 1], c[k]) <==> Passes(ops, c[k - 1], c[k])
      {
        PassesFront(ops, op, c[k - 1], c[k]);
      }
    }
  }

  lemma {:induction false} LinksRise(ops: seq<Op>, c: seq<int>, k: nat)
    requires k < |c| && forall i :: 0 < i < |c| ==> Passes(ops, c[i - 1], c[i])
    ensures c[k] <= c[|c| - 1]
    decreases |c| - k
  {
    if k + 1 < |c| {
      LinksRise(ops, c, k + 1);
      assert Passes(ops, c[k], c[k + 1]);
    }
  }

  lemma RisingBelow(sources: set<string>, start: set<string>, ops: seq<Op>, op: Op, c: seq<int>, x: string)
    requires |c| > 0 && c[|c| - 1] < |ops|
    requires Chain(sources, start, ops + [op], c, x) || Chain(sources, start, ops, c, x)
    ensures forall k :: 0 <= k < |c| ==> 0 <= c[k] < |ops| && (ops + [op])[c[k]] == ops[c[k]]
  {
    hide Untouched, Begins, Passes;
    forall k | 0 <= k < |c|
      ensures 0 <= c[k] < |ops|
    {
      if Chain(sources, start, ops, c, x) {
        LinksRise(ops, c, k);
      } else {
        LinksRise(ops + [op], c, k);
      }
    }
  }

  /** What the last operation adds and takes away. */
  lemma CarriedOneMore(sources: set<string>, start: set<string>, ops: seq<Op>, op: Op, x: string)
    ensures Carried(sources, start, ops + [op], x) <==>
      if Sets(op, x) then CallsSource(op, sources) || exists y :: Carried(sources, start, ops, y) && ReadsName(op, y)
      else Carried(sources, start, ops, x)
  {
    if Carried(sources, start, ops + [op], x) {
      CarriedBefore(sources, start, ops, op, x);
    }
    if Sets(op, x) {
      if CallsSource(op, sources) || exists y :: Carried(sources, start, ops, y) && ReadsName(op, y) {
        CarriedNow(sources, start, ops, op, x);
      }
    } else if Carried(sources, start, ops, x) {
      CarriedOn(sources, start, ops, op, x);
    }
  }

  lemma CarriedBefore(sources: set<string>, start: set<string>, ops: seq<Op>, op: Op, x: string)
    requires Carried(sources, start, ops + [op], x)
    ensures if Sets(op, x) then CallsSource(op, sources) || exists y :: Carried(sources, start, ops, y) && ReadsName(op, y)
            else Carried(sources, start, ops, x)
  {
    hide Untouched, CallsSource, ReadsName, Sets;
    var n := |ops|;
    UntouchedThrough(ops, op, x, -1);
    if !(x in start && Untouched(ops + [op], x, -1, n + 1)) {
      var c :| Chain(sources, start, ops + [op], c, x);
      var m := |c| - 1;
      if c[m] < n {
        ChainFront(sources, start, ops, op, c, x);
      } else {
        SetsAtEnd(ops, op, c[m], x);
        if m > 0 {
          ChainBefore(sources, start, ops, op, c, x);
        } else {
          BeginsAtEnd(sources, start, ops, op);
        }
      }
    }
  }

  lemma SetsAtEnd(ops: seq<Op>, op: Op, i: int, x: string)
    requires i == |ops| && op.Assign? && op.lhs != "" && op.lhs == x
    ensures Sets(op, x)
  {
  }

  lemma BeginsAtEnd(sources: set<string>, start: set<string>, ops: seq<Op>, op: Op)
    requires Begins(sources, start, ops + [op], |ops|)
    ensures CallsSource(op, sources) || exists y :: Carried(sources, start, ops, y) && ReadsName(op, y)
  {
    hide Untouched, CallsSource, ReadsName;
    if !CallsSource(op, sources) {
      var y :| y in start && ReadsName(op, y) && Untouched(ops + [op], y, -1, |ops|);
      UntouchedFront(ops, op, y, -1, |ops|);
      assert Carried(sources, start, ops, y);
    }
  }

  lemma ChainBefore(sources: set<string>, start: set<string>, ops: seq<Op>, op: Op, c: seq<int>, x: string)
    requires |c| > 1 && c[|c| - 1] == |ops| && Chain(sources, start, ops + [op], c, x)
    ensures exists y :: Carried(sources, start, ops, y) && ReadsName(op, y)
  {
    hide Untouched, CallsSource, ReadsName, Sets, Begins;
    var n, m := |ops|, |c| - 1;
    assert Passes(ops + [op], c[m - 1], c[m]);
    var y, d := ops[c[m - 1]].lhs, c[..m];
    UntouchedFront(ops, op, y, c[m - 1], n);
    forall k | 0 < k < |d|
      ensures Passes(ops, d[k - 1], d[k])
    {
      assert Passes(ops + [op], c[k - 1], c[k]);
      LinksRise(ops + [op], d, k);
      PassesFront(ops, op, c[k - 1], c[k]);
    }
    forall k | 0 <= k < |d|
      ensures 0 <= d[k] < n && ops[d[k]].Assign? && ops[d[k]].lhs != ""
    {
      LinksRise(ops, d, k);
      assert ops[d[k]] == (ops + [op])[c[k]];
    }
    BeginsFront(sources, start, ops, op, c[0]);
    assert Chain(sources, start, ops, d, y);
    assert Carried(sources, start, ops, y) && ReadsName(op, y);
  }

  lemma CarriedOn(sources: set<string>, start: set<string>, ops: seq<Op>, op: Op, x: string)
    requires Carried(sources, start, ops, x) && !Sets(op, x)
    ensures Carried(sources, start, ops + [op], x)
  {
    hide Untouched, Sets;
    UntouchedThrough(ops, op, x, -1);
    if c :| Chain(sources, start, ops, c, x) {
      ChainFront(sources, start, ops, op, c, x);
    }
  }

  lemma CarriedNow(sources: set<string>, start: set<string>, ops: seq<Op>, op: Op, x: string)
    requires Sets(op, x)
    requires CallsSource(op, sources) || exists y :: Carried(sources, start, ops, y) && ReadsName(op, y)
    ensures Carried(sources, start, ops + [op], x)
  {
    hide CallsSource, ReadsName;
    var n := |ops|;
    assert (ops + [op])[n] == op;
    if CallsSource(op, sources) {
      assert Chain(sources, start, ops + [op], [n], x);
    } else {
      var y :| Carried(sources, start, ops, y) && ReadsName(op, y);
      if y in start && Untouched(ops, y, -1, n) {
        UntouchedFront(ops, op, y, -1, n);
        assert Chain(sources, start, ops + [op], [n], x);
      } else {
        var c :| Chain(sources, start, ops, c, y);
        ChainOn(sources, start, ops, op, c, y, x);
      }
    }
  }

  lemma ChainOn(sources: set<string>, start: set<string>, ops: seq<Op>, op: Op, c: seq<int>, y: string, x: string)
    requires Chain(sources, start, ops, c, y) && ReadsName(op, y) && Sets(op, x)
    ensures Chain(sources, start, ops + [op], c + [|ops|], x)
  {
    hide CallsSource, ReadsName, Begins;
    var n, d := |ops|, c + [|ops|];
    BeginsFront(sources, start, ops, op, c[0]);
    UntouchedFront(ops, op, y, c[|c| - 1], n);
    forall k | 0 < k < |d|
      ensures Passes(ops + [op], d[k - 1], d[k])
    {
      if k < |c| {
        PassesFront(ops, op, c[k - 1], c[k]);
      }
    }
  }
}
