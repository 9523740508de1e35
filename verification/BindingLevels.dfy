/** The binding levels as they are updated in place. */
module BindingLevels {
  import opened Sequences
  import opened Options
  import opened Scope

  class Bindery {
    var local: map<Id, Decl>       // IDENTIFIER_LOCAL_VALUE
    var global: map<Id, Decl>      // IDENTIFIER_GLOBAL_VALUE
    var fileNames: seq<Decl>       // names of the global level, latest first
    var levels: seq<Level>         // innermost last; empty at file scope
    var made: nat
    var supercontext: map<nat, Option<nat>>
    var body: Option<Block>

    ghost function Abs(): State
      reads this
    {
      State(local, global, fileNames, levels, made, supercontext, body)
    }

    constructor ()
      ensures Abs() == State(map[], map[], [], [], 0, map[], None) && Cached(Abs())
    {
      local, global, fileNames, levels, made := map[], map[], [], [], 0;
      supercontext, body := map[], None;
    }

    method Push(keepNext: bool, keepIfSubblocks: bool)
      requires Cached(Abs())
      modifies this
      ensures Abs() == PushLevel(old(Abs()), keepNext, keepIfSubblocks) && Cached(Abs())
    {
      PushLevelKeeps(Abs(), keepNext, keepIfSubblocks);
      levels := levels + [Level([], [], [], keepNext, keepIfSubblocks)];
    }

    method Declare(d: Decl)
      requires Cached(Abs())
      modifies this
      ensures Abs() == PushDecl(old(Abs()), d) && Cached(Abs())
    {
      PushDeclKeeps(Abs(), d);
      if levels == [] {
        if d.name.Some? { global := global[d.name.value := d]; }
        fileNames := [d] + fileNames;
      } else {
        var k := |levels| - 1;
        var l := levels[k];
        if d.name.Some? {
          var n := d.name.value;
          if n in local { l := l.(shadowed := [(n, local[n])] + l.shadowed); }
          local := local[n := d];
        }
        l := l.(names := [d] + l.names);
        levels := levels[..k] + [l];
      }
    }

    /** Clear the meanings of the names of the level, then restore what it shadowed. */
    method RestoreNames(l: Level)
      modifies this`local
      ensures local == Restore(Forget(old(local), l.names), l.shadowed)
    {
      var i := 0;
      ghost var gone := Forget(local, l.names);
      assert l.names[0..] == l.names;
      while i < |l.names|
        invariant 0 <= i <= |l.names| && Forget(local, l.names[i..]) == gone
      {
        assert l.names[i..][1..] == l.names[i + 1..];
        if l.names[i].name.Some? { local := local - {l.names[i].name.value}; }
        i := i + 1;
      }
      i := 0;
      ghost var back := Restore(local, l.shadowed);
      assert l.shadowed[0..] == l.shadowed;
      while i < |l.shadowed|
        invariant 0 <= i <= |l.shadowed| && Restore(local, l.shadowed[i..]) == back
      {
        assert l.shadowed[i..][1..] == l.shadowed[i + 1..];
        local := local[l.shadowed[i].0 := l.shadowed[i].1];
        i := i + 1;
      }
    }

    /** Record the superior of each block of the level. */
    method SetSupercontexts(bs: seq<Block>, parent: Option<nat>)
      modifies this`supercontext
      ensures supercontext == Adopt(old(supercontext), bs, parent)
    {
      var i := 0;
      assert bs[0..] == bs;
      while i < |bs|
        invariant 0 <= i <= |bs| && Adopt(supercontext, bs[i..], parent) == Adopt(old(supercontext), bs, parent)
      {
        assert bs[i..][1..] == bs[i + 1..];
        supercontext := supercontext[bs[i].id := parent];
        i := i + 1;
      }
    }

    /** Make the block of the level if there is to be one, and hand blocks on to the level outside. */
    method DisposeBlocks(l: Level, outer: seq<Level>, decls: seq<Decl>, keep: bool, functionbody: bool)
        returns (r: seq<Level>)
      modifies this`made, this`supercontext, this`body
      ensures var makes := MakesBlock(l, keep, functionbody);
              var block := Block(old(made), if functionbody then [] else decls, l.blocks);
              && made == (if makes then old(made) + 1 else old(made))
              && supercontext == Adopt(old(supercontext), l.blocks, if makes then Some(old(made)) else None)
              && body == (if functionbody then Some(block) else old(body))
              && r == if functionbody then outer else AddBlocks(outer, if makes then [block] else l.blocks)
    {
      if MakesBlock(l, keep, functionbody) {
        var block := Block(made, if functionbody then [] else decls, l.blocks);
        SetSupercontexts(l.blocks, Some(made));
        made := made + 1;
        if functionbody {
          body := Some(block);
          r := outer;
        } else {
          r := Chained(outer, [block]);
        }
      } else {
        SetSupercontexts(l.blocks, None);
        r := Chained(outer, l.blocks);
      }
    }

    method Pop(keep: bool, reverse: bool, functionbody: bool)
      requires Cached(Abs()) && levels != []
      modifies this
      ensures Abs() == PopLevel(old(Abs()), keep, reverse, functionbody)
      ensures old(Single(Abs())) ==> Cached(Abs())
    {
      ghost var s := Abs();
      var k := |levels| - 1;
      var l, outer := levels[k], levels[..k];
      assert l == Top(s) && outer == Outer(s);
      outer := DisposeBlocks(l, outer, if reverse then Reverse(l.names) else l.names, keep, functionbody);
      RestoreNames(l);
      levels := outer;
      assert Abs() == PopLevel(s, keep, reverse, functionbody);
      if Single(s) { PopLevelKeeps(s, keep, reverse, functionbody); }
    }

    static function Chained(ls: seq<Level>, bs: seq<Block>): (r: seq<Level>)
      ensures r == AddBlocks(ls, bs)
    {
      if ls == [] then [] else ls[|ls| - 1 := ls[|ls| - 1].(blocks := ls[|ls| - 1].blocks + bs)]
    }

    method Lookup(n: Id) returns (r: Option<Decl>)
      requires Cached(Abs())
      ensures r == Search(Abs(), n)
    {
      LookupSearches(Abs(), n);
      if levels != [] && n in local {
        r := Some(local[n]);
      } else {
        r := if n in global then Some(global[n]) else None;
      }
    }

    /** The binding of a name in the innermost level only. */
    method LookupCurrentLevel(n: Id) returns (r: Option<Decl>)
      requires Cached(Abs())
      ensures r == Latest(if levels == [] then fileNames else levels[|levels| - 1].names, n)
    {
      assert Get(global, n) == Latest(fileNames, n);
      if levels == [] { return if n in global then Some(global[n]) else None; }
      var ds := levels[|levels| - 1].names;
      if n !in local {
        assert Get(local, n) == Binding(levels, n);
        return None;
      }
      var i := 0;
      assert ds[0..] == ds;
      while i < |ds| && ds[i].name != Some(n)
        invariant 0 <= i <= |ds| && Latest(ds[i..], n) == Latest(ds, n)
      {
        assert ds[i..][1..] == ds[i + 1..];
        i := i + 1;
      }
      r := if i < |ds| then Some(ds[i]) else None;
    }
  }
}
