/** Binding levels: pushlevel, the binding part of pushdecl, poplevel and
    lookup_name, with the tree of BLOCKs that poplevel builds. */
module Scope {
  import opened Sequences
  import opened Options

  type Id = nat

  /** A declaration; it may have no name. */
  datatype Decl = Decl(name: Option<Id>, uid: nat)

  /** A BLOCK node. */
  datatype Block = Block(id: nat, vars: seq<Decl>, subblocks: seq<Block>)

  /** A level: declarations and shadowed bindings, latest first, and the blocks of levels inside it. */
  datatype Level = Level(names: seq<Decl>, shadowed: seq<(Id, Decl)>, blocks: seq<Block>, keep: bool,
      keepIfSubblocks: bool)

  type Bindings = map<Id, Decl>

  /** The local and global binding of each identifier; the declarations of the
      global level, latest first, and all other levels, innermost last;
      BLOCK_SUPERCONTEXT; the last function body. */
  datatype State = State(local: Bindings, global: Bindings, fileNames: seq<Decl>, levels: seq<Level>,
                         made: nat, supercontext: map<nat, Option<nat>>, body: Option<Block>)

  function Get(m: Bindings, n: Id): Option<Decl> { if n in m then Some(m[n]) else None }

  // ----- the operations -----

  function PushLevel(s: State, keep: bool, keepIfSubblocks: bool): State {
    s.(levels := s.levels + [Level([], [], [], keep, keepIfSubblocks)])
  }

  function Outer(s: State): seq<Level>
    requires s.levels != []
  {
    s.levels[..|s.levels| - 1]
  }

  function Top(s: State): Level
    requires s.levels != []
  {
    s.levels[|s.levels| - 1]
  }

  function AddDecl(l: Level, d: Decl, was: Option<Decl>): Level {
    l.(names := [d] + l.names,
       shadowed := if d.name.Some? && was.Some? then [(d.name.value, was.value)] + l.shadowed else l.shadowed)
  }

  function PushGlobal(s: State, d: Decl): State {
    s.(global := if d.name.Some? then s.global[d.name.value := d] else s.global, fileNames := [d] + s.fileNames)
  }

  function PushDecl(s: State, d: Decl): State {
    if s.levels == [] then PushGlobal(s, d)
    else
      var was := if d.name.Some? then Get(s.local, d.name.value) else None;
      s.(local := if d.name.Some? then s.local[d.name.value := d] else s.local,
         levels := Outer(s) + [AddDecl(Top(s), d, was)])
  }

  function Forget(m: Bindings, ds: seq<Decl>): Bindings {
    if ds == [] then m else Forget(if ds[0].name.Some? then m - {ds[0].name.value} else m, ds[1..])
  }

  function Restore(m: Bindings, sh: seq<(Id, Decl)>): Bindings
    decreases |sh|
  {
    if sh == [] then m else Restore(m[sh[0].0 := sh[0].1], sh[1..])
  }

  /** The local bindings after the innermost level is left. */
  function Popped(s: State): Bindings
    requires s.levels != []
  {
    Restore(Forget(s.local, Top(s).names), Top(s).shadowed)
  }

  function Adopt(sup: map<nat, Option<nat>>, bs: seq<Block>, parent: Option<nat>): map<nat, Option<nat>>
    decreases |bs|
  {
    if bs == [] then sup else Adopt(sup[bs[0].id := parent], bs[1..], parent)
  }

  predicate MakesBlock(l: Level, keep: bool, functionbody: bool) {
    keep || l.keep || functionbody || (l.keepIfSubblocks && l.blocks != [])
  }

  /** The blocks a popped level hands on. */
  function Handed(s: State, keep: bool, reverse: bool, functionbody: bool): seq<Block>
    requires s.levels != []
  {
    var l := Top(s);
    if MakesBlock(l, keep, functionbody) then
      [Block(s.made, if functionbody then [] else if reverse then Reverse(l.names) else l.names, l.blocks)]
    else l.blocks
  }

  function AddBlocks(ls: seq<Level>, bs: seq<Block>): seq<Level> {
    if ls == [] then [] else ls[..|ls| - 1] + [ls[|ls| - 1].(blocks := ls[|ls| - 1].blocks + bs)]
  }

  function PopLevel(s: State, keep: bool, reverse: bool, functionbody: bool): State
    requires s.levels != []
  {
    var l := Top(s);
    var makes := MakesBlock(l, keep, functionbody);
    var bs := Handed(s, keep, reverse, functionbody);
    State(Popped(s), s.global, s.fileNames,
          if functionbody then Outer(s) else AddBlocks(Outer(s), bs),
          if makes then s.made + 1 else s.made,
          Adopt(s.supercontext, l.blocks, if makes then Some(s.made) else None),
          if functionbody then Some(bs[0]) else s.body)
  }

  function LookupName(s: State, n: Id): Option<Decl> {
    if s.levels != [] && n in s.local then Some(s.local[n]) else Get(s.global, n)
  }

  // ----- what they should mean -----

  /** The latest, the earliest and the number of declarations of a name in a level. */
  function Latest(ds: seq<Decl>, n: Id): Option<Decl> {
    if ds == [] then None else if ds[0].name == Some(n) then Some(ds[0]) else Latest(ds[1..], n)
  }

  function First(ds: seq<Decl>, n: Id): Option<Decl> {
    if ds == [] then None
    else if First(ds[1..], n).Some? then First(ds[1..], n)
    else if ds[0].name == Some(n) then Some(ds[0]) else None
  }

  function Times(ds: seq<Decl>, n: Id): nat {
    if ds == [] then 0 else (if ds[0].name == Some(n) then 1 else 0) + Times(ds[1..], n)
  }

  /** Search the levels from the innermost out, but for the global one. */
  function Binding(ls: seq<Level>, n: Id): Option<Decl> {
    if ls == [] then None
    else
      var here := Latest(ls[|ls| - 1].names, n);
      if here.Some? then here else Binding(ls[..|ls| - 1], n)
  }

  /** Search these levels, and what was declared at file scope behind them. */
  function SearchFrom(s: State, ls: seq<Level>, n: Id): Option<Decl> {
    if Binding(ls, n).Some? then Binding(ls, n) else Latest(s.fileNames, n)
  }

  function Search(s: State, n: Id): Option<Decl> { SearchFrom(s, s.levels, n) }

  /** The first binding of `n` that a level shadowed. */
  function Shadowed(sh: seq<(Id, Decl)>, n: Id): Option<Decl> {
    if sh == [] then None
    else if Shadowed(sh[1..], n).Some? then Shadowed(sh[1..], n)
    else if sh[0].0 == n then Some(sh[0].1) else None
  }

  /** What a level should have recorded for `n`. */
  function Expected(l: Level, outer: seq<Level>, n: Id): Option<Decl> {
    if Times(l.names, n) == 0 then None
    else if Binding(outer, n).Some? then Binding(outer, n)
    else if Times(l.names, n) > 1 then First(l.names, n)
    else None
  }

  ghost predicate ShadowOk(l: Level, outer: seq<Level>) {
    forall n: Id :: Shadowed(l.shadowed, n) == Expected(l, outer, n)
  }

  ghost predicate LevelsOk(ls: seq<Level>) {
    ls != [] ==> ShadowOk(ls[|ls| - 1], ls[..|ls| - 1]) && LevelsOk(ls[..|ls| - 1])
  }

  /** The cached local and global bindings are those that a search finds. */
  ghost predicate Cached(s: State) {
    && LevelsOk(s.levels) && (forall n: Id :: Get(s.local, n) == Binding(s.levels, n))
    && forall n: Id :: Get(s.global, n) == Latest(s.fileNames, n)
  }

  lemma {:induction false} Counts(ds: seq<Decl>, n: Id)
    ensures Times(ds, n) > 0 <==> Latest(ds, n).Some?
    ensures Times(ds, n) > 0 <==> First(ds, n).Some?
    ensures Times(ds, n) == 1 ==> Latest(ds, n) == First(ds, n)
  {
    if ds != [] { Counts(ds[1..], n); }
  }

  /** lookup_name finds what an innermost-out search of the levels finds. */
  lemma LookupSearches(s: State, n: Id)
    requires Cached(s)
    ensures LookupName(s, n) == Search(s, n)
  {
    assert Get(s.local, n) == Binding(s.levels, n) && Get(s.global, n) == Latest(s.fileNames, n);
  }

  lemma Last(ls: seq<Level>, l: Level)
    ensures var m := ls + [l]; m[|m| - 1] == l && m[..|m| - 1] == ls
  {
  }

  lemma PushLevelKeeps(s: State, keep: bool, keepIf: bool)
    requires Cached(s)
    ensures Cached(PushLevel(s, keep, keepIf))
  {
    var l := Level([], [], [], keep, keepIf);
    Last(s.levels, l);
  }

  lemma PushGlobalKeeps(s: State, d: Decl)
    requires Cached(s)
    ensures Cached(PushGlobal(s, d))
  {
    var s' := PushGlobal(s, d);
    assert s'.fileNames[0] == d && s'.fileNames[1..] == s.fileNames;
    forall n: Id ensures Get(s'.global, n) == Latest(s'.fileNames, n) {
      assert Get(s.global, n) == Latest(s.fileNames, n);
    }
  }

  /** A declaration is what its name stands for from then on, at any level, and
      other names keep their meaning. */
  lemma DeclIsFound(s: State, d: Decl, n: Id)
    requires Cached(s)
    ensures LookupName(PushDecl(s, d), n) == if d.name == Some(n) then Some(d) else LookupName(s, n)
    ensures Binding(s.levels, n).None? ==>
              LookupName(PushGlobal(s, d), n) == if d.name == Some(n) then Some(d) else LookupName(s, n)
  {
    PushDeclKeeps(s, d);
    PushGlobalKeeps(s, d);
    LookupSearches(s, n);
    LookupSearches(PushDecl(s, d), n);
    LookupSearches(PushGlobal(s, d), n);
    assert ([d] + s.fileNames)[1..] == s.fileNames;
    if s.levels != [] {
      Last(Outer(s), Top(PushDecl(s, d)));
      assert Top(PushDecl(s, d)).names[1..] == Top(s).names;
    }
  }

  lemma PushDeclKeeps(s: State, d: Decl)
    requires Cached(s)
    ensures Cached(PushDecl(s, d))
  {
    if s.levels == [] { PushGlobalKeeps(s, d); }
    if s.levels != [] {
      var outer, l, s' := Outer(s), Top(s), PushDecl(s, d);
      var l' := Top(s');
      Last(outer, l');
      forall n: Id
        ensures Get(s'.local, n) == Binding(s'.levels, n) && Shadowed(l'.shadowed, n) == Expected(l', outer, n)
      {
        assert Get(s.local, n) == Binding(s.levels, n) && Shadowed(l.shadowed, n) == Expected(l, outer, n);
        Counts(l.names, n);
        assert l'.names[1..] == l.names;
        if l'.shadowed != l.shadowed { assert l'.shadowed[1..] == l.shadowed; }
      }
    }
  }

  // ----- poplevel restores -----

  lemma {:induction false} GetForgotten(m: Bindings, ds: seq<Decl>, n: Id)
    ensures Get(Forget(m, ds), n) == if Times(ds, n) > 0 then None else Get(m, n)
  {
    if ds != [] { GetForgotten(if ds[0].name.Some? then m - {ds[0].name.value} else m, ds[1..], n); }
  }

  lemma {:induction false} GetRestored(m: Bindings, sh: seq<(Id, Decl)>, n: Id)
    ensures Get(Restore(m, sh), n) == if Shadowed(sh, n).Some? then Shadowed(sh, n) else Get(m, n)
    decreases |sh|
  {
    if sh != [] { GetRestored(m[sh[0].0 := sh[0].1], sh[1..], n); }
  }

  lemma PoppedBinding(s: State, n: Id)
    requires Cached(s) && s.levels != []
    ensures Get(Popped(s), n)
            == if Binding(Outer(s), n).None? && Times(Top(s).names, n) > 1 then First(Top(s).names, n)
               else Binding(Outer(s), n)
  {
    var l := Top(s);
    GetForgotten(s.local, l.names, n);
    GetRestored(Forget(s.local, l.names), l.shadowed, n);
    Counts(l.names, n);
    assert Get(s.local, n) == Binding(s.levels, n) && Shadowed(l.shadowed, n) == Expected(l, Outer(s), n);
  }

  /** A level in which no name without an outer local binding was declared twice. */
  ghost predicate Single(s: State)
    requires s.levels != []
  {
    forall n: Id :: Times(Top(s).names, n) > 1 ==> Binding(Outer(s), n).Some?
  }

  /** poplevel gives every identifier its binding outside the level again,
      exactly if no new name was declared twice in it. */
  lemma PopRestoresIff(s: State)
    requires Cached(s) && s.levels != []
    ensures Single(s) <==> forall n: Id :: Get(Popped(s), n) == Binding(Outer(s), n)
  {
    forall n: Id
      ensures Get(Popped(s), n) == Binding(Outer(s), n) <==> (Times(Top(s).names, n) > 1 ==> Binding(Outer(s), n).Some?)
    {
      PoppedBinding(s, n);
      Counts(Top(s).names, n);
    }
    if !Single(s) {
      var n: Id :| Times(Top(s).names, n) > 1 && Binding(Outer(s), n).None?;
      assert Get(Popped(s), n) != Binding(Outer(s), n);
    }
  }

  /** A new name declared twice in one level keeps its first meaning after the level. */
  lemma DeclaredTwiceStays(s: State, n: Id, a: Decl, b: Decl)
    requires Cached(s) && n !in s.local && a.name == Some(n) && b.name == Some(n)
    ensures Get(Popped(PushDecl(PushDecl(PushLevel(s, false, false), a), b)), n) == Some(a)
  {
    var s0 := PushLevel(s, false, false);
    var s1 := PushDecl(s0, a);
    var s2 := PushDecl(s1, b);
    PushLevelKeeps(s, false, false);
    PushDeclKeeps(s0, a);
    PushDeclKeeps(s1, b);
    Last(s.levels, Top(s0));
    Last(s.levels, Top(s1));
    Last(s.levels, Top(s2));
    assert Outer(s2) == s.levels && Top(s2).names == [b, a];
    assert Get(s.local, n) == Binding(s.levels, n);
    TwoOfOne(n, a, b);
    PoppedBinding(s2, n);
  }

  lemma {:induction false} TwoOfOne(n: Id, a: Decl, b: Decl)
    requires a.name == Some(n) && b.name == Some(n)
    ensures Times([b, a], n) == 2 && First([b, a], n) == Some(a)
  {
    var ds := [b, a];
    assert ds[1..] == [a] && [a][1..] == [];
    assert Times([a], n) == 1 && First([a], n) == Some(a);
  }

  lemma {:induction false} SameNamesBind(ls: seq<Level>, ks: seq<Level>, n: Id)
    requires |ls| == |ks| && forall i :: 0 <= i < |ls| ==> ls[i].names == ks[i].names
    ensures Binding(ls, n) == Binding(ks, n)
  {
    if ls != [] { SameNamesBind(ls[..|ls| - 1], ks[..|ks| - 1], n); }
  }

  lemma AddBlocksKeeps(ls: seq<Level>, bs: seq<Block>)
    ensures LevelsOk(ls) ==> LevelsOk(AddBlocks(ls, bs))
    ensures forall n: Id :: Binding(AddBlocks(ls, bs), n) == Binding(ls, n)
  {
    forall n: Id ensures Binding(AddBlocks(ls, bs), n) == Binding(ls, n) { SameNamesBind(AddBlocks(ls, bs), ls, n); }
    if ls != [] {
      var l := ls[|ls| - 1];
      var l' := l.(blocks := l.blocks + bs);
      Last(ls[..|ls| - 1], l');
      if LevelsOk(ls) {
        forall n: Id ensures Shadowed(l'.shadowed, n) == Expected(l', ls[..|ls| - 1], n) {
          assert Shadowed(l.shadowed, n) == Expected(l, ls[..|ls| - 1], n);
        }
      }
    }
  }

  lemma PopLevelKeeps(s: State, keep: bool, reverse: bool, functionbody: bool)
    requires Cached(s) && s.levels != [] && Single(s)
    ensures var s' := PopLevel(s, keep, reverse, functionbody);
            && Cached(s') && s'.fileNames == s.fileNames
            && forall n: Id :: LookupName(s', n) == SearchFrom(s, Outer(s), n)
  {
    PopRestoresIff(s);
    AddBlocksKeeps(Outer(s), Handed(s, keep, reverse, functionbody));
    var s' := PopLevel(s, keep, reverse, functionbody);
    forall n: Id ensures Get(s'.local, n) == Binding(s'.levels, n) {
      assert Get(s'.local, n) == Binding(Outer(s), n);
    }
    forall n: Id ensures LookupName(s', n) == SearchFrom(s, Outer(s), n) {
      assert Get(s'.local, n) == Binding(Outer(s), n) && Get(s.global, n) == Latest(s.fileNames, n);
    }
  }
}
