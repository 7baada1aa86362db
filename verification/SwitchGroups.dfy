/** How the builder cuts the children of a `switch` body into groups, and which
    children each label starts with. */
module SwitchGroups {
  import opened Ast
  import opened Runs
  import opened CfgSpec

  /** The groups end to end. */
  function LaidOut(groups: seq<seq<Stmt>>): seq<Stmt>
  {
    if groups == [] then [] else groups[0] + LaidOut(groups[1..])
  }

  /** Nothing from the first label on is lost, moved or repeated, and labels
      stand only at the heads of groups. */
  lemma {:induction false} CaseGroupsLayOut(ss: seq<Stmt>)
    ensures LaidOut(CaseGroups(ss)) == ss[GroupLength(ss)..]
    ensures forall g: seq<Stmt> :: g in CaseGroups(ss) ==> g != [] && g[0].Case? && forall s :: s in g[1..] ==> !s.Case?
    decreases |ss|
  {
    hide SizeGroups, SizeAll;
    if ss != [] {
      if ss[0].Case? {
        var n := GroupLength(ss[1..]) + 1;
        CaseGroupsLayOut(ss[n..]);
        FirstGroup(ss, n);
        FirstLaidOut(ss, n, CaseGroups(ss[n..]));
      } else {
        CaseGroupsLayOut(ss[1..]);
        assert ss[1..][GroupLength(ss[1..])..] == ss[GroupLength(ss)..];
      }
    }
  }

  lemma FirstGroup(ss: seq<Stmt>, n: nat)
    requires ss != [] && ss[0].Case? && n == GroupLength(ss[1..]) + 1
    ensures CaseGroups(ss) == [ss[..n]] + CaseGroups(ss[n..]) && GroupLength(ss[n..]) == 0
    ensures forall s :: s in ss[..n][1..] ==> !s.Case?
  {
    hide SizeGroups, SizeAll;
    forall s | s in ss[..n][1..]
      ensures !s.Case?
    {
      var i :| 0 <= i < n - 1 && ss[..n][1..][i] == s;
      assert ss[1..][i] == s;
    }
  }

  lemma FirstLaidOut(ss: seq<Stmt>, n: nat, rest: seq<seq<Stmt>>)
    requires n <= |ss| && LaidOut(rest) == ss[n..]
    ensures LaidOut([ss[..n]] + rest) == ss
  {
    assert ([ss[..n]] + rest)[1..] == rest;
    assert ss[..n] + ss[n..] == ss;
  }

  /** The groups from number `g` on, end to end, are the children from some label on. */
  lemma {:induction false} LabelOfGroup(ss: seq<Stmt>, g: nat) returns (i: nat)
    requires g < |CaseGroups(ss)|
    ensures i < |ss| && ss[i].Case? && ss[i..] == LaidOut(CaseGroups(ss)[g..])
    decreases |ss|
  {
    hide SizeGroups, SizeAll, CaseGroups;
    NoGroups();
    if ss[0].Case? {
      var n := GroupLength(ss[1..]) + 1;
      FirstGroup(ss, n);
      if g == 0 {
        i := 0;
        CaseGroupsLayOut(ss);
        assert CaseGroups(ss)[0..] == CaseGroups(ss) && GroupLength(ss) == 0 && ss[0..] == ss;
      } else {
        i := LabelOfGroup(ss[n..], g - 1);
        assert CaseGroups(ss)[g..] == CaseGroups(ss[n..])[g - 1..];
        assert ss[n..][i..] == ss[i + n..];
        i := i + n;
      }
    } else {
      SkipStatement(ss);
      i := LabelOfGroup(ss[1..], g);
      assert ss[1..][i..] == ss[i + 1..];
      i := i + 1;
    }
  }

  lemma SkipStatement(ss: seq<Stmt>)
    requires ss != [] && !ss[0].Case?
    ensures CaseGroups(ss) == CaseGroups(ss[1..])
  {
  }

  lemma NoGroups()
    ensures CaseGroups([]) == []
  {
  }

  lemma LaterLabel(ss: seq<Stmt>, n: nat, i: nat)
    requires 0 < i < |ss| && ss[i].Case? && n == GroupLength(ss[1..]) + 1
    ensures n <= i
  {
    assert ss[1..][i - 1] == ss[i];
  }

  /** The children from any label on are the groups from some number on. */
  lemma {:induction false} GroupOfLabel(ss: seq<Stmt>, i: nat) returns (g: nat)
    requires i < |ss| && ss[i].Case?
    ensures g < |CaseGroups(ss)| && ss[i..] == LaidOut(CaseGroups(ss)[g..])
    decreases |ss|
  {
    hide SizeGroups, SizeAll, CaseGroups;
    if ss[0].Case? {
      var n := GroupLength(ss[1..]) + 1;
      FirstGroup(ss, n);
      if i == 0 {
        g := 0;
        CaseGroupsLayOut(ss);
        assert CaseGroups(ss)[0..] == CaseGroups(ss) && GroupLength(ss) == 0 && ss[0..] == ss;
      } else {
        LaterLabel(ss, n, i);
        g := GroupOfLabel(ss[n..], i - n);
        assert CaseGroups(ss)[g + 1..] == CaseGroups(ss[n..])[g..];
        assert ss[n..][i - n..] == ss[i..];
        g := g + 1;
      }
    } else {
      SkipStatement(ss);
      g := GroupOfLabel(ss[1..], i - 1);
      assert ss[1..][i - 1..] == ss[i..];
    }
  }

  /** One of the groups is the default one iff one of the labels is. */
  lemma {:induction false} DefaultGroup(ss: seq<Stmt>)
    ensures HasDefault(CaseGroups(ss)) <==> HasDefaultLabel(ss)
  {
    hide SizeGroups, SizeAll, CaseGroups;
    if HasDefault(CaseGroups(ss)) {
      var group: seq<Stmt> :| group in CaseGroups(ss) && group[0].isDefault;
      var g :| 0 <= g < |CaseGroups(ss)| && CaseGroups(ss)[g] == group;
      var i := LabelOfGroup(ss, g);
      assert LaidOut(CaseGroups(ss)[g..])[0] == group[0] && ss[i..][0] == ss[i];
    }
    if i :| 0 <= i < |ss| && ss[i].Case? && ss[i].isDefault {
      var g := GroupOfLabel(ss, i);
      var group := CaseGroups(ss)[g];
      assert group in CaseGroups(ss);
      assert LaidOut(CaseGroups(ss)[g..])[0] == group[0] && ss[i..][0] == ss[i];
    }
  }

  /** Every group is made of children of the switch. */
  lemma {:induction false} GroupsAreRegular(ss: seq<Stmt>, c: Context)
    requires RegularAll(ss, c)
    ensures forall g: seq<Stmt> :: g in CaseGroups(ss) ==> RegularAll(g, c)
    decreases |ss|
  {
    hide SizeGroups, SizeAll;
    if ss != [] {
      if ss[0].Case? {
        var n := GroupLength(ss[1..]) + 1;
        FirstGroup(ss, n);
        RegularParts(ss, c, n);
        GroupsAreRegular(ss[n..], c);
      } else {
        GroupsAreRegular(ss[1..], c);
      }
    }
  }

  lemma {:induction false} RegularParts(ss: seq<Stmt>, c: Context, n: nat)
    requires n <= |ss| && RegularAll(ss, c)
    ensures RegularAll(ss[..n], c) && RegularAll(ss[n..], c)
    decreases n
  {
    hide Regular;
    if n > 0 {
      RegularParts(ss[1..], c, n - 1);
      assert ss[..n][1..] == ss[1..][..n - 1] && ss[n..] == ss[1..][n - 1..];
    } else {
      assert ss[0..] == ss;
    }
  }
}
