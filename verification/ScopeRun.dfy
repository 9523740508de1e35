/** Runs of nested levels: bindings come back and blocks are conserved. */
module ScopeRun {
  import opened Sequences
  import opened Options
  import opened Scope

  /** What a function body does, in order: declare, declare at file scope, or
      open a level, fill it and leave it. */
  datatype Item =
    | DeclI(d: Decl)
    | GlobalI(d: Decl)
    | ScopeI(keepNext: bool, keepIfSubblocks: bool, keep: bool, reverse: bool, items: seq<Item>)

  function RunItem(s: State, it: Item): (r: State)
    ensures |r.levels| == |s.levels|
    decreases it, 0
  {
    match it
    case DeclI(d) => PushDecl(s, d)
    case GlobalI(d) => PushGlobal(s, d)
    case ScopeI(keepNext, keepIf, keep, reverse, items) =>
      PopLevel(Run(PushLevel(s, keepNext, keepIf), items), keep, reverse, false)
  }

  function Run(s: State, items: seq<Item>): (r: State)
    ensures |r.levels| == |s.levels|
    decreases items, 1
  {
    if items == [] then s else Run(RunItem(s, items[0]), items[1..])
  }

  // ----- bindings -----

  ghost predicate Distinct(ds: seq<Decl>) { forall n: Id :: Times(ds, n) <= 1 }

  /** Declaring the items beside `ds` declares no name twice in the level. */
  ghost predicate Fresh(ds: seq<Decl>, items: seq<Item>)
    decreases items
  {
    if items == [] then Distinct(ds) else Fresh(if items[0].DeclI? then [items[0].d] + ds else ds, items[1..])
  }

  /** One declaration for each name in each level. */
  ghost predicate OneEach(items: seq<Item>)
    decreases items
  {
    items != [] ==>
      && (items[0].ScopeI? ==> Fresh([], items[0].items) && OneEach(items[0].items))
      && OneEach(items[1..])
  }

  lemma SameBindings(a: Bindings, b: Bindings)
    requires forall n: Id :: Get(a, n) == Get(b, n)
    ensures a == b
  {
    forall n: Id ensures n in a <==> n in b { assert Get(a, n) == Get(b, n); }
    forall n: Id | n in a ensures a[n] == b[n] { assert Get(a, n) == Get(b, n); }
  }

  /** Leaving a level gives all local bindings the state they had when it was
      entered, and lookup_name agrees with a search throughout. */
  lemma {:induction false} ScopeRestores(s: State, it: Item)
    requires Cached(s) && it.ScopeI? && OneEach([it])
    ensures var s' := RunItem(s, it); Cached(s') && s'.local == s.local
    ensures s.levels != [] ==> Outer(RunItem(s, it)) == Outer(s) && Top(RunItem(s, it)).names == Top(s).names
    decreases it, 0
  {
    var s0 := PushLevel(s, it.keepNext, it.keepIfSubblocks);
    PushLevelKeeps(s, it.keepNext, it.keepIfSubblocks);
    Last(s.levels, Top(s0));
    RunKeeps(s0, it.items);
    var s1 := Run(s0, it.items);
    assert Outer(s1) == s.levels;
    assert Single(s1);
    PopLevelKeeps(s1, it.keep, it.reverse, false);
    PopRestoresIff(s1);
    var s2 := PopLevel(s1, it.keep, it.reverse, false);
    forall n: Id ensures Get(s2.local, n) == Get(s.local, n) {
      assert Get(s2.local, n) == Binding(Outer(s1), n);
    }
    SameBindings(s2.local, s.local);
  }

  lemma {:induction false} RunKeeps(s: State, items: seq<Item>)
    requires Cached(s) && OneEach(items) && (s.levels != [] ==> Fresh(Top(s).names, items))
    ensures var s' := Run(s, items);
            Cached(s') && (s.levels != [] ==> Outer(s') == Outer(s) && Distinct(Top(s').names))
    decreases items, 1
  {
    if items != [] {
      var it := items[0];
      var s1 := RunItem(s, it);
      match it {
        case DeclI(d) => PushDeclKeeps(s, d);
        case GlobalI(d) => PushGlobalKeeps(s, d);
        case ScopeI(_, _, _, _, _) =>
          assert [it][1..] == [];
          ScopeRestores(s, it);
      }
      RunKeeps(s1, items[1..]);
    }
  }

  /** Whatever name is looked up after a run, a search of the levels finds the same. */
  lemma RunLooksUp(s: State, items: seq<Item>, n: Id)
    requires Cached(s) && OneEach(items) && (s.levels != [] ==> Fresh(Top(s).names, items))
    ensures LookupName(Run(s, items), n) == Search(Run(s, items), n)
  {
    RunKeeps(s, items);
    LookupSearches(Run(s, items), n);
  }

  // ----- blocks -----

  /** Blocks in the order in which their levels end. */
  function Post(bs: seq<Block>): seq<nat>
    decreases bs
  {
    if bs == [] then [] else Post(bs[0].subblocks) + [bs[0].id] + Post(bs[1..])
  }

  function Range(a: nat, b: nat): (r: seq<nat>)
    requires a <= b
    ensures |r| == b - a && forall i :: 0 <= i < b - a ==> r[i] == a + i
  {
    seq(b - a, i requires 0 <= i => a + i)
  }

  /** Every subblock has its parent as supercontext. */
  ghost predicate Linked(sup: map<nat, Option<nat>>, bs: seq<Block>)
    decreases bs
  {
    bs != [] ==>
      && (forall c <- bs[0].subblocks :: c.id in sup && sup[c.id] == Some(bs[0].id))
      && Linked(sup, bs[0].subblocks) && Linked(sup, bs[1..])
  }

  ghost predicate SameAt(sup: map<nat, Option<nat>>, sup': map<nat, Option<nat>>, ids: seq<nat>) {
    forall i <- ids :: (i in sup <==> i in sup') && (i in sup ==> sup[i] == sup'[i])
  }

  lemma {:induction false} PostConcat(a: seq<Block>, b: seq<Block>)
    ensures Post(a + b) == Post(a) + Post(b)
  {
    if a == [] {
      assert a + b == b;
    } else {
      assert (a + b)[0] == a[0] && (a + b)[1..] == a[1..] + b;
      PostConcat(a[1..], b);
    }
  }

  lemma {:induction false} LinkedConcat(sup: map<nat, Option<nat>>, a: seq<Block>, b: seq<Block>)
    requires Linked(sup, a) && Linked(sup, b)
    ensures Linked(sup, a + b)
  {
    if a == [] {
      assert a + b == b;
    } else {
      assert (a + b)[0] == a[0] && (a + b)[1..] == a[1..] + b;
      LinkedConcat(sup, a[1..], b);
    }
  }

  lemma {:induction false} RootsInPost(bs: seq<Block>)
    ensures forall b <- bs :: b.id in Post(bs)
  {
    if bs != [] { RootsInPost(bs[1..]); }
  }

  lemma {:induction false} LinkedFrame(sup: map<nat, Option<nat>>, sup': map<nat, Option<nat>>, bs: seq<Block>)
    requires Linked(sup, bs) && SameAt(sup, sup', Post(bs))
    ensures Linked(sup', bs)
    decreases bs
  {
    if bs != [] {
      RootsInPost(bs[0].subblocks);
      LinkedFrame(sup, sup', bs[0].subblocks);
      LinkedFrame(sup, sup', bs[1..]);
    }
  }

  lemma {:induction false} Adopted(sup: map<nat, Option<nat>>, bs: seq<Block>, parent: Option<nat>, i: nat)
    ensures var sup' := Adopt(sup, bs, parent);
            if exists b <- bs :: b.id == i then i in sup' && sup'[i] == parent
            else (i in sup' <==> i in sup) && (i in sup ==> sup'[i] == sup[i])
    decreases |bs|
  {
    if bs != [] {
      Adopted(sup[bs[0].id := parent], bs[1..], parent, i);
      if exists b <- bs :: b.id == i {
        assert bs[0].id == i || exists b <- bs[1..] :: b.id == i;
      } else {
        assert bs[0].id != i && forall b <- bs[1..] :: b.id != i;
      }
    }
  }

  ghost predicate Increasing(ids: seq<nat>) { forall i, j :: 0 <= i < j < |ids| ==> ids[i] < ids[j] }

  lemma Halves(a: seq<nat>, x: nat, b: seq<nat>)
    requires Increasing(a + [x] + b)
    ensures Increasing(a) && Increasing(b) && (forall i <- a :: i < x) && (forall i <- b :: x < i)
  {
    var s := a + [x] + b;
    assert s[..|a|] == a && s[|a|] == x && s[|a| + 1..] == b;
  }

  /** Re-parenting the roots of a forest leaves the links inside it. */
  lemma {:induction false} AdoptKeepsLinks(sup: map<nat, Option<nat>>, sup': map<nat, Option<nat>>,
      bs: seq<Block>, roots: set<nat>)
    requires Linked(sup, bs) && Increasing(Post(bs))
    requires forall i: nat :: i !in roots ==> (i in sup' <==> i in sup) && (i in sup ==> sup'[i] == sup[i])
    requires forall i <- Post(bs) :: i in roots ==> exists b <- bs :: b.id == i
    ensures Linked(sup', bs)
    decreases bs
  {
    if bs != [] {
      var b := bs[0];
      Halves(Post(b.subblocks), b.id, Post(bs[1..]));
      RootsInPost(bs[1..]);
      RootsInPost(b.subblocks);
      forall i | i in Post(b.subblocks) ensures i !in roots {
        assert i in Post(bs);
      }
      LinkedFrame(sup, sup', b.subblocks);
      forall i | i in Post(bs[1..]) && i in roots ensures exists r <- bs[1..] :: r.id == i {
        assert i in Post(bs);
        var r :| r in bs && r.id == i;
        assert r != b;
      }
      AdoptKeepsLinks(sup, sup', bs[1..], roots);
    }
  }

  /** Blocks made so far all number below `made`, in order, and are linked. */
  ghost predicate Forest(s: State)
    requires s.levels != []
  {
    Increasing(Post(Top(s).blocks)) && Linked(s.supercontext, Top(s).blocks) &&
        forall i <- Post(Top(s).blocks) :: i < s.made
  }

  /** From `s` to `s'`, at the same level: exactly the blocks made in between
      were added, in order, and older blocks keep their supercontext. */
  ghost predicate Grown(s: State, s': State)
    requires s.levels != [] && s'.levels != []
  {
    && s.made <= s'.made && Outer(s') == Outer(s) && Forest(s')
    && Post(Top(s').blocks) == Post(Top(s).blocks) + Range(s.made, s'.made)
    && SameBelow(s.supercontext, s'.supercontext, s.made)
  }

  ghost predicate SameBelow(sup: map<nat, Option<nat>>, sup': map<nat, Option<nat>>, base: nat) {
    forall i: nat :: i < base ==> (i in sup <==> i in sup') && (i in sup ==> sup[i] == sup'[i])
  }

  lemma RangeJoins(a: nat, b: nat, c: nat)
    requires a <= b <= c
    ensures Range(a, b) + Range(b, c) == Range(a, c)
  {
  }

  lemma GrownTrans(s: State, t: State, u: State)
    requires s.levels != [] && t.levels != [] && u.levels != [] && Grown(s, t) && Grown(t, u)
    ensures Grown(s, u)
  {
    RangeJoins(s.made, t.made, u.made);
    var p := Post(Top(s).blocks);
    assert p + Range(s.made, t.made) + Range(t.made, u.made) == p + (Range(s.made, t.made) + Range(t.made, u.made));
  }

  lemma GrownSelf(s: State, s': State)
    requires s.levels != [] && s'.levels != [] && Forest(s) && s'.made == s.made && s'.supercontext == s.supercontext
    requires Outer(s') == Outer(s) && Top(s').blocks == Top(s).blocks
    ensures Grown(s, s')
  {
    assert Post(Top(s).blocks) + Range(s.made, s.made) == Post(Top(s).blocks);
  }

  /** Running items adds exactly the blocks they make. */
  lemma {:induction false} RunGrows(s: State, items: seq<Item>)
    requires s.levels != [] && Forest(s)
    ensures Grown(s, Run(s, items))
    decreases items, 1
  {
    if items == [] {
      GrownSelf(s, s);
    } else {
      var s1 := RunItem(s, items[0]);
      match items[0] {
        case DeclI(d) => GrownSelf(s, s1);
        case GlobalI(_) => GrownSelf(s, s1);
        case ScopeI(_, _, _, _, _) => ScopeGrows(s, items[0]);
      }
      RunGrows(s1, items[1..]);
      GrownTrans(s, s1, Run(s1, items[1..]));
    }
  }

  lemma {:induction false} ScopeGrows(s: State, it: Item)
    requires s.levels != [] && Forest(s) && it.ScopeI?
    ensures Grown(s, RunItem(s, it))
    decreases it, 0
  {
    var s0 := PushLevel(s, it.keepNext, it.keepIfSubblocks);
    Last(s.levels, Top(s0));
    RunGrows(s0, it.items);
    var s1 := Run(s0, it.items);
    assert Post(Top(s1).blocks) == Range(s.made, s1.made);
    PopLinks(s1, it.keep, it.reverse, false, s.made);
    PopGrows(s, s1, it.keep, it.reverse);
  }

  /** What poplevel does to the blocks of the level it leaves, all of them numbered from `base` up. */
  lemma PopLinks(s: State, keep: bool, reverse: bool, functionbody: bool, base: nat)
    requires s.levels != [] && base <= s.made && Linked(s.supercontext, Top(s).blocks)
    requires Post(Top(s).blocks) == Range(base, s.made)
    ensures var s' := PopLevel(s, keep, reverse, functionbody);
            && base <= s'.made && Linked(s'.supercontext, Handed(s, keep, reverse, functionbody))
            && Post(Handed(s, keep, reverse, functionbody)) == Range(base, s'.made)
            && SameBelow(s.supercontext, s'.supercontext, base)
  {
    var bs, makes := Top(s).blocks, MakesBlock(Top(s), keep, functionbody);
    ReparentForest(s.supercontext, bs, if makes then Some(s.made) else None, base, s.made);
    if makes {
      var hs := Handed(s, keep, reverse, functionbody);
      assert hs[0].subblocks == bs && hs[1..] == [];
      assert Range(base, s.made) + [s.made] == Range(base, s.made + 1);
    }
  }

  lemma ReparentForest(sup: map<nat, Option<nat>>, bs: seq<Block>, parent: Option<nat>, base: nat, made: nat)
    requires base <= made && Linked(sup, bs) && Post(bs) == Range(base, made)
    ensures var sup' := Adopt(sup, bs, parent);
            && Linked(sup', bs) && (forall b <- bs :: b.id in sup' && sup'[b.id] == parent) &&
                SameBelow(sup, sup', base)
  {
    var sup', roots := Adopt(sup, bs, parent), set b <- bs :: b.id;
    RootsInPost(bs);
    forall i: nat
      ensures i in roots ==> i in sup' && sup'[i] == parent
      ensures i !in roots ==> (i in sup' <==> i in sup) && (i in sup ==> sup'[i] == sup[i])
    {
      Adopted(sup, bs, parent, i);
    }
    AdoptKeepsLinks(sup, sup', bs, roots);
  }

  lemma PopGrows(s: State, s1: State, keep: bool, reverse: bool)
    requires s.levels != [] && Forest(s) && s1.levels != [] && Outer(s1) == s.levels && s.made <= s1.made
    requires var s2 := PopLevel(s1, keep, reverse, false);
             var hs := Handed(s1, keep, reverse, false);
             && s.made <= s2.made && Linked(s2.supercontext, hs) && Post(hs) == Range(s.made, s2.made)
             && SameBelow(s.supercontext, s2.supercontext, s.made)
    ensures Grown(s, PopLevel(s1, keep, reverse, false))
  {
    var s2, hs, bs := PopLevel(s1, keep, reverse, false), Handed(s1, keep, reverse, false), Top(s).blocks;
    Last(Outer(s), Top(s).(blocks := bs + hs));
    assert Top(s2).blocks == bs + hs && Outer(s2) == Outer(s);
    PostConcat(bs, hs);
    LinkedFrame(s.supercontext, s2.supercontext, bs);
    LinkedConcat(s2.supercontext, bs, hs);
    JoinIncreasing(Post(bs), s.made, s2.made);
  }

  lemma JoinIncreasing(p: seq<nat>, a: nat, b: nat)
    requires Increasing(p) && a <= b && forall i <- p :: i < a
    ensures Increasing(p + Range(a, b)) && forall i <- p + Range(a, b) :: i < b
  {
    var s := p + Range(a, b);
    forall i, j | 0 <= i < j < |s| ensures s[i] < s[j] {
      if i < |p| { assert p[i] in p; }
    }
  }

  /** The tree of a function holds every block its levels made, exactly once
      and in the order in which they end, each with its parent as
      supercontext. */
  lemma FunctionTree(s: State, keepNext: bool, keepIf: bool, items: seq<Item>, keep: bool, reverse: bool)
    ensures var s' := PopLevel(Run(PushLevel(s, keepNext, keepIf), items), keep, reverse, true);
            && s'.body.Some? && s.made <= s'.made
            && Post([s'.body.value]) == Range(s.made, s'.made)
            && Linked(s'.supercontext, [s'.body.value])
  {
    var s0 := PushLevel(s, keepNext, keepIf);
    Last(s.levels, Top(s0));
    RunGrows(s0, items);
    var s1 := Run(s0, items);
    assert Post(Top(s1).blocks) == Range(s.made, s1.made);
    PopLinks(s1, keep, reverse, true, s.made);
  }

  // ----- which blocks enclose which -----

  /** A block without its number. */
  datatype Tree = Node(vars: seq<Decl>, subs: seq<Tree>)

  function Shape(b: Block): Tree
    decreases b, 0
  {
    Node(b.vars, Shapes(b.subblocks))
  }

  function Shapes(bs: seq<Block>): (r: seq<Tree>)
    ensures |r| == |bs|
    decreases bs, 1
  {
    if bs == [] then [] else [Shape(bs[0])] + Shapes(bs[1..])
  }

  /** The declarations of a level itself, in the order in which they were written. */
  function DeclsOf(items: seq<Item>): seq<Decl> {
    if items == [] then [] else (if items[0].DeclI? then [items[0].d] else []) + DeclsOf(items[1..])
  }

  /** The blocks that a level's items leave in it: a level inside makes a block
      of its declarations and its own blocks if it is kept, and otherwise leaves
      its blocks to the level outside. */
  function Trees(items: seq<Item>): seq<Tree>
    decreases items, 1
  {
    if items == [] then [] else TreesOf(items[0]) + Trees(items[1..])
  }

  function TreesOf(it: Item): seq<Tree>
    decreases it, 0
  {
    match it
    case DeclI(_) => []
    case GlobalI(_) => []
    case ScopeI(keepNext, keepIf, keep, reverse, items) =>
      var subs := Trees(items);
      var vars := if reverse then DeclsOf(items) else Reverse(DeclsOf(items));
      if keep || keepNext || (keepIf && subs != []) then [Node(vars, subs)] else subs
  }

  lemma {:induction false} ShapesConcat(a: seq<Block>, b: seq<Block>)
    ensures Shapes(a + b) == Shapes(a) + Shapes(b)
  {
    if a == [] {
      assert a + b == b;
    } else {
      assert (a + b)[0] == a[0] && (a + b)[1..] == a[1..] + b;
      ShapesConcat(a[1..], b);
    }
  }

  lemma {:induction false} ReverseSnoc(ds: seq<Decl>, d: Decl)
    ensures Reverse(ds + [d]) == [d] + Reverse(ds)
  {
    if ds == [] {
      assert ds + [d] == [d] && [d][1..] == [];
    } else {
      assert (ds + [d])[0] == ds[0] && (ds + [d])[1..] == ds[1..] + [d];
      ReverseSnoc(ds[1..], d);
    }
  }

  lemma {:induction false} ReverseTwice(ds: seq<Decl>)
    ensures Reverse(Reverse(ds)) == ds
  {
    if ds != [] {
      ReverseSnoc(Reverse(ds[1..]), ds[0]);
      ReverseTwice(ds[1..]);
    }
  }

  /** From `s` to `s'`, at the same level: these declarations and blocks were added. */
  ghost predicate Added(s: State, s': State, ds: seq<Decl>, ts: seq<Tree>)
    requires s.levels != [] && s'.levels != []
  {
    && Outer(s') == Outer(s) && Top(s').names == Reverse(ds) + Top(s).names
    && Top(s').keep == Top(s).keep && Top(s').keepIfSubblocks == Top(s).keepIfSubblocks
    && Shapes(Top(s').blocks) == Shapes(Top(s).blocks) + ts
  }

  lemma AddedTrans(s: State, t: State, u: State, d: seq<Decl>, e: seq<Decl>, x: seq<Tree>, y: seq<Tree>)
    requires s.levels != [] && t.levels != [] && u.levels != [] && |d| <= 1
    requires Added(s, t, d, x) && Added(t, u, e, y)
    ensures Added(s, u, d + e, x + y)
  {
    var a, b := Shapes(Top(s).blocks), Top(s).names;
    assert a + x + y == a + (x + y);
    if d == [] {
      assert d + e == e && Reverse(d) + b == b;
    } else {
      assert d == [d[0]] && d[1..] == [] && (d + e)[1..] == e;
      assert Reverse(d) == d && Reverse(d + e) == Reverse(e) + d;
      assert Reverse(e) + (d + b) == Reverse(e) + d + b;
    }
  }

  /** Running items leaves exactly the blocks of their levels, nested as the levels are. */
  lemma {:induction false} RunBuilds(s: State, items: seq<Item>)
    requires s.levels != []
    ensures Added(s, Run(s, items), DeclsOf(items), Trees(items))
    decreases items, 1
  {
    if items == [] {
      assert Reverse<Decl>([]) + Top(s).names == Top(s).names;
      assert Shapes(Top(s).blocks) + [] == Shapes(Top(s).blocks);
    } else {
      var it := items[0];
      var s1 := RunItem(s, it);
      var ds := if it.DeclI? then [it.d] else [];
      if it.ScopeI? {
        ScopeBuilds(s, it);
      } else {
        if it.DeclI? { assert ds[1..] == [] && Reverse(ds) == ds; }
        assert Shapes(Top(s).blocks) + [] == Shapes(Top(s).blocks);
      }
      RunBuilds(s1, items[1..]);
      AddedTrans(s, s1, Run(s1, items[1..]), ds, DeclsOf(items[1..]), TreesOf(it), Trees(items[1..]));
    }
  }

  lemma {:induction false} ScopeBuilds(s: State, it: Item)
    requires s.levels != [] && it.ScopeI?
    ensures Added(s, RunItem(s, it), [], TreesOf(it))
    decreases it, 0
  {
    var s0 := PushLevel(s, it.keepNext, it.keepIfSubblocks);
    Last(s.levels, Top(s0));
    RunBuilds(s0, it.items);
    var s1 := Run(s0, it.items);
    InnerLevel(s0, s1, it.items);
    HandedShapes(s1, it);
    var hs, bs := Handed(s1, it.keep, it.reverse, false), Top(s).blocks;
    Last(Outer(s), Top(s).(blocks := bs + hs));
    ShapesConcat(bs, hs);
    assert Reverse<Decl>([]) + Top(s).names == Top(s).names;
  }

  lemma InnerLevel(s0: State, s1: State, items: seq<Item>)
    requires s0.levels != [] && s1.levels != [] && Top(s0).names == [] && Top(s0).blocks == []
    requires Added(s0, s1, DeclsOf(items), Trees(items))
    ensures Top(s1).names == Reverse(DeclsOf(items)) && Shapes(Top(s1).blocks) == Trees(items)
  {
    assert Reverse(DeclsOf(items)) + [] == Reverse(DeclsOf(items));
    assert [] + Trees(items) == Trees(items);
  }

  // ----- what a name stands for -----

  /** The declarations made at file scope, in the order in which they are written. */
  function FileDecls(items: seq<Item>, atFile: bool): seq<Decl>
    decreases items, 1
  {
    if items == [] then [] else FileDeclsOf(items[0], atFile) + FileDecls(items[1..], atFile)
  }

  function FileDeclsOf(it: Item, atFile: bool): seq<Decl>
    decreases it, 0
  {
    match it
    case DeclI(d) => if atFile then [d] else []
    case GlobalI(d) => [d]
    case ScopeI(_, _, _, _, items) => FileDecls(items, false)
  }

  lemma {:induction false} ReverseConcat(a: seq<Decl>, b: seq<Decl>)
    ensures Reverse(a + b) == Reverse(b) + Reverse(a)
  {
    if a == [] {
      assert a + b == b && Reverse(b) + [] == Reverse(b);
    } else {
      assert (a + b)[0] == a[0] && (a + b)[1..] == a[1..] + b;
      ReverseConcat(a[1..], b);
      assert Reverse(b) + Reverse(a[1..]) + [a[0]] == Reverse(b) + (Reverse(a[1..]) + [a[0]]);
    }
  }

  /** A run adds to the file scope what is declared there, wherever that is written. */
  lemma {:induction false} RunFileScope(s: State, items: seq<Item>)
    ensures Run(s, items).fileNames == Reverse(FileDecls(items, s.levels == [])) + s.fileNames
    decreases items, 1
  {
    if items == [] {
      assert Reverse<Decl>([]) + s.fileNames == s.fileNames;
    } else {
      var s1 := RunItem(s, items[0]);
      ItemFileScope(s, items[0]);
      RunFileScope(s1, items[1..]);
      BothReversed(FileDeclsOf(items[0], s.levels == []), FileDecls(items[1..], s.levels == []), s.fileNames);
    }
  }

  lemma {:induction false} BothReversed(a: seq<Decl>, b: seq<Decl>, c: seq<Decl>)
    ensures Reverse(b) + (Reverse(a) + c) == Reverse(a + b) + c
  {
    ReverseConcat(a, b);
  }

  lemma {:induction false} ItemFileScope(s: State, it: Item)
    ensures RunItem(s, it).fileNames == Reverse(FileDeclsOf(it, s.levels == [])) + s.fileNames
    decreases it, 0
  {
    if it.ScopeI? {
      RunFileScope(PushLevel(s, it.keepNext, it.keepIfSubblocks), it.items);
    } else {
      assert [it.d][1..] == [] && Reverse([it.d]) == [it.d];
      assert Reverse<Decl>([]) + s.fileNames == s.fileNames;
    }
  }

  lemma {:induction false} LatestConcat(a: seq<Decl>, b: seq<Decl>, n: Id)
    ensures Latest(a + b, n) == if Latest(a, n).Some? then Latest(a, n) else Latest(b, n)
  {
    if a == [] {
      assert a + b == b;
    } else {
      assert (a + b)[0] == a[0] && (a + b)[1..] == a[1..] + b;
      LatestConcat(a[1..], b, n);
    }
  }

  /** What a name stands for behind the items: its latest declaration in the level
      itself, or else what it stood for in the levels at hand, or else its latest
      declaration at file scope. */
  function Meaning(s: State, items: seq<Item>, n: Id): Option<Decl> {
    var here := if s.levels == [] then None else Latest(Reverse(DeclsOf(items)), n);
    if here.Some? then here
    else if Binding(s.levels, n).Some? then Binding(s.levels, n)
    else Latest(Reverse(FileDecls(items, s.levels == [])) + s.fileNames, n)
  }

  /** lookup_name gives every name the meaning that the text before it says. */
  lemma RunFinds(s: State, items: seq<Item>, n: Id)
    requires Cached(s) && OneEach(items) && (s.levels != [] ==> Fresh(Top(s).names, items))
    ensures LookupName(Run(s, items), n) == Meaning(s, items, n)
  {
    RunLooksUp(s, items, n);
    RunFileScope(s, items);
    if s.levels != [] {
      RunBuilds(s, items);
      LatestConcat(Reverse(DeclsOf(items)), Top(s).names, n);
    }
  }

  /** What a level hands on as it is left. */
  lemma HandedShapes(s: State, it: Item)
    requires s.levels != [] && it.ScopeI?
    requires Top(s).names == Reverse(DeclsOf(it.items)) && Shapes(Top(s).blocks) == Trees(it.items)
    requires Top(s).keep == it.keepNext && Top(s).keepIfSubblocks == it.keepIfSubblocks
    ensures Shapes(Handed(s, it.keep, it.reverse, false)) == TreesOf(it)
  {
    ReverseTwice(DeclsOf(it.items));
    var hs := Handed(s, it.keep, it.reverse, false);
    if MakesBlock(Top(s), it.keep, false) { assert hs[1..] == []; }
  }

  /** The tree of a function has the blocks of the levels in it, nested as the levels are. */
  lemma FunctionShape(s: State, keepNext: bool, keepIf: bool, items: seq<Item>, keep: bool, reverse: bool)
    ensures var s' := PopLevel(Run(PushLevel(s, keepNext, keepIf), items), keep, reverse, true);
            s'.body.Some? && Shape(s'.body.value) == Node([], Trees(items))
  {
    var s0 := PushLevel(s, keepNext, keepIf);
    Last(s.levels, Top(s0));
    RunBuilds(s0, items);
    InnerLevel(s0, Run(s0, items), items);
  }
}
