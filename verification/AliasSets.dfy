/** The table of alias sets: record_alias_subset keeps, for every set, all of
    its descendants, and two references are apart when neither set reaches the
    other. */
module AliasSets {

  type Pair = (int, int)     // superset, subset

  /** `d` is below `a` by a path of `n` recorded pairs. */
  ghost predicate PathOf(pairs: set<Pair>, a: int, d: int, n: nat)
    decreases n
  {
    n > 0 && if n == 1 then (a, d) in pairs else exists x :: (a, x) in pairs && PathOf(pairs, x, d, n - 1)
  }

  ghost predicate Below(pairs: set<Pair>, a: int, d: int) {
    exists n: nat :: PathOf(pairs, a, d, n)
  }

  lemma {:induction false} PathJoins(pairs: set<Pair>, a: int, b: int, c: int, n: nat)
    requires PathOf(pairs, a, b, n) && Below(pairs, b, c)
    ensures Below(pairs, a, c)
    decreases n
  {
    if n == 1 {
      var m: nat :| PathOf(pairs, b, c, m);
      assert PathOf(pairs, a, c, m + 1);
    } else {
      var x :| (a, x) in pairs && PathOf(pairs, x, b, n - 1);
      PathJoins(pairs, x, b, c, n - 1);
      var m: nat :| PathOf(pairs, x, c, m);
      assert PathOf(pairs, a, c, m + 1);
    }
  }

  lemma BelowTrans(pairs: set<Pair>, a: int, b: int, c: int)
    requires Below(pairs, a, b) && Below(pairs, b, c)
    ensures Below(pairs, a, c)
  {
    var n: nat :| PathOf(pairs, a, b, n);
    PathJoins(pairs, a, b, c, n);
  }

  lemma {:induction false} PathGrows(pairs: set<Pair>, more: set<Pair>, a: int, d: int, n: nat)
    requires pairs <= more && PathOf(pairs, a, d, n)
    ensures PathOf(more, a, d, n)
    decreases n
  {
    if n > 1 {
      var x :| (a, x) in pairs && PathOf(pairs, x, d, n - 1);
      PathGrows(pairs, more, x, d, n - 1);
    }
  }

  lemma BelowGrows(pairs: set<Pair>, more: set<Pair>, a: int, d: int)
    requires pairs <= more && Below(pairs, a, d)
    ensures Below(more, a, d)
  {
    var n: nat :| PathOf(pairs, a, d, n);
    PathGrows(pairs, more, a, d, n);
  }

  /** A path through the new pair: down to `p`, across to `s`, and on to `d`. */
  ghost predicate Through(pairs: set<Pair>, p: int, s: int, a: int, d: int) {
    (a == p || Below(pairs, a, p)) && (d == s || Below(pairs, s, d))
  }

  lemma {:induction false} NewPath(pairs: set<Pair>, p: int, s: int, a: int, d: int, n: nat)
    requires PathOf(pairs + {(p, s)}, a, d, n)
    ensures Below(pairs, a, d) || Through(pairs, p, s, a, d)
    decreases n
  {
    var more := pairs + {(p, s)};
    if n == 1 {
      if (a, d) in pairs { assert PathOf(pairs, a, d, 1); }
    } else {
      var x :| (a, x) in more && PathOf(more, x, d, n - 1);
      NewPath(pairs, p, s, x, d, n - 1);
      if (a, x) in pairs {
        assert PathOf(pairs, a, x, 1);
        if Below(pairs, x, d) { BelowTrans(pairs, a, x, d); }
        if Below(pairs, x, p) { BelowTrans(pairs, a, x, p); }
      }
    }
  }

  /** What one new pair adds to the descendants. */
  lemma BelowExtended(pairs: set<Pair>, p: int, s: int, a: int, d: int)
    ensures Below(pairs + {(p, s)}, a, d) <==> Below(pairs, a, d) || Through(pairs, p, s, a, d)
  {
    var more := pairs + {(p, s)};
    if Below(more, a, d) {
      var n: nat :| PathOf(more, a, d, n);
      NewPath(pairs, p, s, a, d, n);
    }
    if Below(pairs, a, d) { BelowGrows(pairs, more, a, d); }
    if Through(pairs, p, s, a, d) {
      assert PathOf(more, p, s, 1);
      if d != s {
        BelowGrows(pairs, more, s, d);
        BelowTrans(more, p, s, d);
      }
      if a != p {
        BelowGrows(pairs, more, a, p);
        BelowTrans(more, a, p, d);
      }
    }
  }

  // ----- the table -----

  type Table = map<int, set<int>>

  function Children(t: Table, a: int): set<int> { if a in t then t[a] else {} }

  /** What record_alias_subset makes of the table. */
  function Recorded(t: Table, superset: int, subset: int): Table {
    t[superset := Children(t, superset) + Children(t, subset) + {subset}]
  }

  /** Every children table holds exactly the descendants. */
  ghost predicate Closed(t: Table, pairs: set<Pair>) {
    forall a, d :: d in Children(t, a) <==> Below(pairs, a, d)
  }

  /** Sets above `superset` already hold what it is about to gain. */
  ghost predicate AncestorsReady(t: Table, superset: int, subset: int) {
    forall a :: a != superset && superset in Children(t, a) ==> Children(t, subset) + {subset} <= Children(t, a)
  }

  /** Recording a pair keeps the table closed exactly when the ancestors of the
      superset already hold everything it gains. */
  lemma RecordKeepsClosedIff(t: Table, pairs: set<Pair>, p: int, s: int)
    requires Closed(t, pairs)
    ensures Closed(Recorded(t, p, s), pairs + {(p, s)}) <==> AncestorsReady(t, p, s)
  {
    var t', more := Recorded(t, p, s), pairs + {(p, s)};
    forall a, d ensures Below(more, a, d) <==> d in Children(t, a) || Through(pairs, p, s, a, d) {
      BelowExtended(pairs, p, s, a, d);
    }
    if AncestorsReady(t, p, s) {
      forall a, d ensures d in Children(t', a) <==> Below(more, a, d) {
      }
    }
    if Closed(t', more) {
      forall a, d | a != p && p in Children(t, a) && d in Children(t, s) + {s}
        ensures d in Children(t, a)
      {
        assert Through(pairs, p, s, a, d);
        assert Below(more, a, d);
        assert d in Children(t', a);
      }
    }
  }

  /** No set gains a subset after being recorded as a subset itself. */
  ghost predicate SubsetsSettled(history: seq<Pair>) {
    forall i, j :: 0 <= i < j < |history| ==> history[i].1 != history[j].0
  }

  function RecordedAll(history: seq<Pair>): Table {
    if history == [] then map[]
    else var last := history[|history| - 1];
         Recorded(RecordedAll(history[..|history| - 1]), last.0, last.1)
  }

  ghost function PairsOf(history: seq<Pair>): set<Pair> { set e | e in history }

  lemma {:induction false} PathNeedsPair(pairs: set<Pair>, a: int, d: int, n: nat) returns (x: int)
    requires PathOf(pairs, a, d, n)
    ensures (x, d) in pairs
    decreases n
  {
    if n == 1 {
      x := a;
    } else {
      var y :| (a, y) in pairs && PathOf(pairs, y, d, n - 1);
      x := PathNeedsPair(pairs, y, d, n - 1);
    }
  }

  lemma NoPairNoPath(pairs: set<Pair>, a: int, d: int)
    requires forall e :: e in pairs ==> e.1 != d
    ensures !Below(pairs, a, d)
  {
    if Below(pairs, a, d) {
      var n: nat :| PathOf(pairs, a, d, n);
      var x := PathNeedsPair(pairs, a, d, n);
      assert false;
    }
  }

  /** When subsets are settled before they are used, every run leaves exactly
      the descendants in every children table. */
  lemma {:induction false} SettledRunIsClosed(history: seq<Pair>)
    requires SubsetsSettled(history)
    ensures Closed(RecordedAll(history), PairsOf(history))
  {
    if history != [] {
      var n := |history| - 1;
      var before, last := history[..n], history[n];
      SettledRunIsClosed(before);
      var t := RecordedAll(before);
      assert AncestorsReady(t, last.0, last.1) by {
        forall a ensures last.0 !in Children(t, a) {
          assert forall i :: 0 <= i < n ==> before[i] == history[i] && history[i].1 != history[n].0;
          NoPairNoPath(PairsOf(before), a, last.0);
        }
      }
      RecordKeepsClosedIff(t, PairsOf(before), last.0, last.1);
      assert PairsOf(history) == PairsOf(before) + {last} by {
        assert history == before + [last];
      }
    } else {
      forall a, d ensures !Below({}, a, d) {
        NoPairNoPath({}, a, d);
      }
    }
  }

  /** A descent from `a` to `d` by pairs each of which was recorded before the one
      above it, all of them among the first `top`. */
  ghost predicate Descends(h: seq<Pair>, top: nat, a: int, d: int, n: nat)
    decreases n
  {
    n > 0 && exists k :: 0 <= k < top && k < |h| && h[k].0 == a
                         && (if n == 1 then h[k].1 == d else Descends(h, k, h[k].1, d, n - 1))
  }

  ghost predicate Reached(h: seq<Pair>, top: nat, a: int, d: int) { exists n: nat :: Descends(h, top, a, d, n) }

  lemma {:induction false} RecordedStep(h: seq<Pair>, m: nat)
    requires 0 < m <= |h|
    ensures RecordedAll(h[..m]) == Recorded(RecordedAll(h[..m - 1]), h[m - 1].0, h[m - 1].1)
  {
    assert h[..m][..m - 1] == h[..m - 1] && h[..m][m - 1] == h[m - 1];
  }

  /** The tables hold exactly what such descents reach. */
  lemma {:induction false} ChildrenDescend(h: seq<Pair>, m: nat, a: int, d: int)
    requires m <= |h|
    ensures d in Children(RecordedAll(h[..m]), a) <==> Reached(h, m, a, d)
  {
    if d in Children(RecordedAll(h[..m]), a) { ChildDescends(h, m, a, d); }
    if n: nat :| Descends(h, m, a, d, n) { DescentIsChild(h, m, a, d, n); }
  }

  lemma {:induction false} ChildDescends(h: seq<Pair>, m: nat, a: int, d: int)
    requires m <= |h| && d in Children(RecordedAll(h[..m]), a)
    ensures Reached(h, m, a, d)
  {
    assert m > 0;
    RecordedStep(h, m);
    var s := h[m - 1].1;
    if d in Children(RecordedAll(h[..m - 1]), a) {
      ChildDescends(h, m - 1, a, d);
      var n: nat :| Descends(h, m - 1, a, d, n);
      DescendsMore(h, m - 1, m, a, d, n);
    } else if d == s {
      assert Descends(h, m, a, d, 1);
    } else {
      ChildDescends(h, m - 1, s, d);
      var n: nat :| Descends(h, m - 1, s, d, n);
      assert Descends(h, m, a, d, n + 1);
    }
  }

  lemma {:induction false} DescentIsChild(h: seq<Pair>, m: nat, a: int, d: int, n: nat)
    requires m <= |h| && Descends(h, m, a, d, n)
    ensures d in Children(RecordedAll(h[..m]), a)
    decreases m
  {
    var k :| 0 <= k < m && h[k].0 == a && (if n == 1 then h[k].1 == d else Descends(h, k, h[k].1, d, n - 1));
    RecordedStep(h, m);
    if k < m - 1 {
      DescentIsChild(h, m - 1, a, d, n);
    } else if n > 1 {
      DescentIsChild(h, m - 1, h[k].1, d, n - 1);
    }
  }

  lemma {:induction false} DescendsMore(h: seq<Pair>, top: nat, more: nat, a: int, d: int, n: nat)
    requires top <= more && Descends(h, top, a, d, n)
    ensures Descends(h, more, a, d, n)
  {
    var k :| 0 <= k < top && k < |h| && h[k].0 == a
             && (if n == 1 then h[k].1 == d else Descends(h, k, h[k].1, d, n - 1));
  }

  lemma {:induction false} DescentIsPath(h: seq<Pair>, top: nat, a: int, d: int, n: nat)
    requires Descends(h, top, a, d, n)
    ensures PathOf(PairsOf(h), a, d, n)
    decreases n
  {
    var k :| 0 <= k < top && k < |h| && h[k].0 == a
             && (if n == 1 then h[k].1 == d else Descends(h, k, h[k].1, d, n - 1));
    assert h[k] in h && (a, h[k].1) in PairsOf(h);
    if n > 1 { DescentIsPath(h, k, h[k].1, d, n - 1); }
  }

  /** A whole history leaves closed tables exactly if every descendant can be
      reached through pairs recorded in the right order. */
  lemma {:induction false} HistoryClosedIff(h: seq<Pair>)
    ensures Closed(RecordedAll(h), PairsOf(h)) <==>
            forall a, d :: Below(PairsOf(h), a, d) ==> Reached(h, |h|, a, d)
  {
    assert h[..|h|] == h;
    forall a, d
      ensures d in Children(RecordedAll(h), a) <==> Reached(h, |h|, a, d)
      ensures Reached(h, |h|, a, d) ==> Below(PairsOf(h), a, d)
    {
      ChildrenDescend(h, |h|, a, d);
      if n: nat :| Descends(h, |h|, a, d, n) { DescentIsPath(h, |h|, a, d, n); }
    }
  }

  /** Recording 1 > 2 before 2 > 3 leaves 3 out of the children of 1, and
      references in 1 and 3 are taken to be disjoint. */
  lemma LateSubsetIsLost()
    ensures var h := [(1, 2), (2, 3)];
            && Below(PairsOf(h), 1, 3) && 3 !in Children(RecordedAll(h), 1)
            && Disjoint(RecordedAll(h), false, 1, 3) && Disjoint(RecordedAll(h), false, 3, 1)
  {
    var h: seq<Pair> := [(1, 2), (2, 3)];
    var first := h[..1];
    assert first == [(1, 2)] && first[..0] == [];
    var empty: Table := map[];
    assert RecordedAll(first) == Recorded(empty, 1, 2);
    assert RecordedAll(h) == Recorded(RecordedAll(first), 2, 3);
    assert h[0] in PairsOf(h) && h[1] in PairsOf(h);
    assert PathOf(PairsOf(h), 2, 3, 1);
    assert PathOf(PairsOf(h), 1, 3, 2);
  }

  /** mems_in_disjoint_alias_sets_p for references in sets `a` and `b`;
      `varargs` says the function takes variable arguments. */
  function Disjoint(t: Table, varargs: bool, a: int, b: int): bool {
    if varargs then false
    else if a == 0 || b == 0 then false
    else if a == b then false
    else if a in t && b in t[a] then false
    else if b in t && a in t[b] then false
    else true
  }

  /** Over a closed table the test is symmetric and says exactly that the function
      takes no variable arguments and both sets are known, distinct and unrelated. */
  lemma DisjointMeaning(t: Table, pairs: set<Pair>, varargs: bool, a: int, b: int)
    requires Closed(t, pairs)
    ensures Disjoint(t, varargs, a, b) <==>
            !varargs && a != 0 && b != 0 && a != b && !Below(pairs, a, b) && !Below(pairs, b, a)
    ensures Disjoint(t, varargs, a, b) == Disjoint(t, varargs, b, a)
  {
    assert b in Children(t, a) <==> Below(pairs, a, b);
    assert a in Children(t, b) <==> Below(pairs, b, a);
  }

  /** The table as the compiler updates it. */
  class AliasSetTable {
    var sets: map<int, set<int>>
    ghost var history: seq<Pair>

    ghost predicate Valid()
      reads this
    {
      sets == RecordedAll(history)
    }

    constructor ()
      ensures Valid() && history == []
    {
      sets := map[];
      history := [];
    }

    /** Enter all children of `subset` as children of `superset`. */
    method InsertSubsetChildren(superset: int, subset: int)
      requires superset in sets && subset in sets
      modifies this`sets
      ensures sets == old(sets)[superset := old(sets[superset]) + old(sets[subset])]
    {
      var todo := sets[subset];
      ghost var done: set<int> := {};
      assert old(sets[superset]) + done == old(sets[superset]);
      while todo != {}
        invariant superset in sets && done + todo == old(sets[subset])
        invariant sets == old(sets)[superset := old(sets[superset]) + done]
        decreases todo
      {
        assert (forall child :: child !in todo) ==> todo == {};
        var child :| child in todo;
        sets := sets[superset := sets[superset] + {child}];
        todo := todo - {child};
        assert old(sets[superset]) + done + {child} == old(sets[superset]) + (done + {child});
        done := done + {child};
      }
    }

    /** record_alias_subset; a superset of zero makes the compiler abort. */
    method RecordAliasSubset(superset: int, subset: int) returns (aborted: bool)
      requires Valid()
      modifies this
      ensures Valid()
      ensures aborted == (superset == 0)
      ensures history == if aborted then old(history) else old(history) + [(superset, subset)]
      ensures SubsetsSettled(history) ==> Closed(sets, PairsOf(history))
    {
      aborted := superset == 0;
      if !aborted {
        if superset !in sets {
          sets := sets[superset := {}];
        }
        if subset in sets {
          InsertSubsetChildren(superset, subset);
        }
        sets := sets[superset := sets[superset] + {subset}];
        history := history + [(superset, subset)];
        assert history[..|history| - 1] == old(history);
        assert sets[superset] == Recorded(old(sets), superset, subset)[superset];
        assert sets == Recorded(old(sets), superset, subset);
      }
      if SubsetsSettled(history) { SettledRunIsClosed(history); }
    }
  }
}
