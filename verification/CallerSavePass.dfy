/** The pass itself: save_call_clobbered_regs walks the chain once and inserts
    saves and restores as it goes. */
module CallerSavePass {
  import opened Sequences
  import opened SaveAreas
  import opened CallerSave

  predicate EndsBlock(insns: seq<Insn>)
    requires insns != []
  {
    |insns| == 1 || insns[1].block > insns[0].block
  }

  ghost predicate AllSaveable(c: Config, insns: seq<Insn>) { forall i <- insns :: CallSaveable(c, i) }

  /** The rewriting of a whole chain from `saved` on. */
  function RewriteChain(c: Config, saved: set<nat>, insns: seq<Insn>): seq<Out>
    requires Fits(c) && Saveable(c, saved) && AllSaveable(c, insns)
    decreases |insns|
  {
    if insns == [] then [] else
      var i := insns[0];
      SavedAfterFacts(c, i, saved);
      var s := SavedAfter(c, i, saved);
      var here := OutsBefore(c, i, saved);
      if EndsBlock(insns) then here + AtEnd(c, i, s) + RewriteChain(c, {}, insns[1..])
      else here + [Orig(i)] + RewriteChain(c, s, insns[1..])
  }

  /** The last insn of a block and the restores that go with it. */
  function AtEnd(c: Config, i: Insn, s: set<nat>): seq<Out>
    requires Fits(c) && Saveable(c, s)
  {
    var last := Groups(c, s, s, 0);
    if i.kind.Jump? then Restores(last) + [Orig(i)] else [Orig(i)] + Restores(Reverse(last))
  }

  /** `b` is a whole basic block at the front of a chain. */
  predicate FrontBlock(b: seq<Insn>, rest: seq<Insn>) {
    && b != [] && (forall k :: 0 <= k < |b| - 1 ==> b[k + 1].block <= b[k].block)
    && (rest != [] ==> rest[0].block > b[|b| - 1].block)
  }

  /** The chain is rewritten block by block, with nothing in the save area in between. */
  lemma {:induction false} ChainIsBlocks(c: Config, saved: set<nat>, b: seq<Insn>, rest: seq<Insn>)
    requires Fits(c) && Saveable(c, saved) && AllSaveable(c, b) && AllSaveable(c, rest) && FrontBlock(b, rest)
    ensures AllSaveable(c, b + rest)
    ensures RewriteChain(c, saved, b + rest) == RewriteBlock(c, saved, b) + RewriteChain(c, {}, rest)
    decreases |b|
  {
    var all, i := b + rest, b[0];
    SavedAfterFacts(c, i, saved);
    var s := SavedAfter(c, i, saved);
    var here := OutsBefore(c, i, saved);
    assert all[0] == i && all[1..] == b[1..] + rest;
    if |b| == 1 {
      assert EndsBlock(all) && all[1..] == rest;
      var e := AtEnd(c, i, s);
      assert RewriteBlock(c, saved, b) == here + e;
      assert RewriteChain(c, saved, all) == here + e + RewriteChain(c, {}, rest);
    } else {
      assert b[0 + 1].block <= b[0].block;
      assert !EndsBlock(all);
      ChainIsBlocks(c, s, b[1..], rest);
      var x, y := RewriteBlock(c, s, b[1..]), RewriteChain(c, {}, rest);
      assert RewriteChain(c, saved, all) == here + [Orig(i)] + (x + y);
      assert RewriteBlock(c, saved, b) == here + [Orig(i)] + x;
      Associate(here + [Orig(i)], x, y);
    }
  }

  /** Blocks as they lie in the chain. */
  ghost predicate LaidOut(bs: seq<Block>) {
    bs != [] ==> FrontBlock(bs[0].insns, PathInsns(bs[1..])) && LaidOut(bs[1..])
  }

  /** The rewritten chain is the rewritten blocks one after the other, so what
      holds along paths of blocks holds of the code the pass leaves. */
  lemma {:induction false} ChainIsPathOuts(c: Config, bs: seq<Block>)
    requires Fits(c) && LaidOut(bs) && forall b <- bs :: SaveableBlock(c, b)
    ensures AllSaveable(c, PathInsns(bs)) && RewriteChain(c, {}, PathInsns(bs)) == PathOuts(c, bs)
  {
    if bs != [] {
      assert SaveableBlock(c, bs[0]);
      ChainIsPathOuts(c, bs[1..]);
      ChainIsBlocks(c, {}, bs[0].insns, PathInsns(bs[1..]));
    }
  }

  lemma Associate<T>(a: seq<T>, b: seq<T>, d: seq<T>)
    ensures a + (b + d) == a + b + d
  {
  }

  function Origs(insns: seq<Insn>): seq<Out> {
    if insns == [] then [] else [Orig(insns[0])] + Origs(insns[1..])
  }

  lemma {:induction false} WidestSame(c: Config, p: set<nat>, q: set<nat>, r: nat, i: nat)
    requires forall x: nat :: x >= r ==> (x in p <==> x in q)
    ensures Widest(c, p, r, i) == Widest(c, q, r, i)
  {
    if i > 0 {
      WidestSame(c, p, q, r, i - 1);
      assert Regs(r, i) <= p <==> Regs(r, i) <= q;
    }
  }

  lemma {:induction false} RestoresConcat(gs: seq<Group>, hs: seq<Group>)
    ensures Restores(gs + hs) == Restores(gs) + Restores(hs) && Saves(gs + hs) == Saves(gs) + Saves(hs)
  {
    if gs == [] {
      assert gs + hs == hs;
    } else {
      assert (gs + hs)[1..] == gs[1..] + hs && (gs + hs)[0] == gs[0];
      RestoresConcat(gs[1..], hs);
      Associate([Restore(gs[0])], Restores(gs[1..]), Restores(hs));
      Associate([Save(gs[0])], Saves(gs[1..]), Saves(hs));
    }
  }

  lemma {:induction false} ReverseSnoc(gs: seq<Group>, g: Group)
    ensures Reverse(gs + [g]) == [g] + Reverse(gs)
  {
    if gs != [] {
      assert (gs + [g])[1..] == gs[1..] + [g] && (gs + [g])[0] == gs[0];
      ReverseSnoc(gs[1..], g);
      Associate([g], Reverse(gs[1..]), [gs[0]]);
    } else {
      assert gs + [g] == [g] && [g][1..] == [];
    }
  }

  lemma SnocFacts(gs: seq<Group>, g: Group)
    ensures Saves(gs + [g]) == Saves(gs) + [Save(g)] && Restores(gs + [g]) == Restores(gs) + [Restore(g)]
    ensures Restores(Reverse(gs + [g])) == [Restore(g)] + Restores(Reverse(gs))
    ensures Covered(gs + [g]) == Covered(gs) + Regs(g.first, g.words)
  {
    RestoresConcat(gs, [g]);
    ReverseSnoc(gs, g);
    RestoresConcat([g], Reverse(gs));
    CoveredConcat(gs, [g]);
    assert [g][1..] == [];
  }

  ghost predicate Choosable(c: Config, want: set<nat>, pool: set<nat>) {
    Fits(c) && want <= pool && Saveable(c, pool)
  }

  /** The groups chosen in the end, when `done` was chosen for registers below `r`. */
  ghost function Finish(c: Config, want: set<nat>, pool: set<nat>, r: nat, done: seq<Group>): seq<Group>
    requires Choosable(c, want, pool)
    decreases c.t.nregs - r
  {
    if r >= c.t.nregs then done
    else if r in want then
      var n := Widest(c, pool, r, c.t.moveMaxWords);
      Finish(c, want, pool, r + n, done + [Group(r, n)])
    else Finish(c, want, pool, r + 1, done)
  }

  lemma {:induction false} FinishIsGroups(c: Config, want: set<nat>, pool: set<nat>, r: nat, done: seq<Group>)
    requires Choosable(c, want, pool)
    ensures Finish(c, want, pool, r, done) == done + Groups(c, want, pool, r)
    decreases c.t.nregs - r
  {
    if r < c.t.nregs {
      if r in want {
        var n := Widest(c, pool, r, c.t.moveMaxWords);
        FinishIsGroups(c, want, pool, r + n, done + [Group(r, n)]);
        Associate(done, [Group(r, n)], Groups(c, want, pool, r + n));
      } else {
        FinishIsGroups(c, want, pool, r + 1, done);
      }
    }
  }

  lemma FinishSkip(c: Config, want: set<nat>, pool: set<nat>, r: nat, done: seq<Group>)
    requires Choosable(c, want, pool) && r < c.t.nregs && r !in want
    ensures Finish(c, want, pool, r, done) == Finish(c, want, pool, r + 1, done)
  {
  }

  /** The next group may be looked for in `now`, where registers below `r` are gone. */
  lemma FinishNext(c: Config, want: set<nat>, pool: set<nat>, now: set<nat>, r: nat, done: seq<Group>, n: nat)
    requires Choosable(c, want, pool) && r < c.t.nregs && r in want
    requires n == Widest(c, now, r, c.t.moveMaxWords) && forall x: nat :: x >= r ==> (x in pool <==> x in now)
    ensures n > 0 && r + n <= c.t.nregs
    ensures Finish(c, want, pool, r, done) == Finish(c, want, pool, r + n, done + [Group(r, n)])
  {
    WidestSame(c, pool, now, r, c.t.moveMaxWords);
  }

  /** The restore loop after restoring `done`, all of it below register `r`. */
  ghost predicate Restoring(before: bool, r: nat, done: seq<Group>, saved0: set<nat>, saved: set<nat>,
                            front0: seq<Out>, front: seq<Out>, behind0: seq<Out>, behind: seq<Out>) {
    && (forall x <- Covered(done) :: x < r) && saved == saved0 - Covered(done)
    && (before ==> front == front0 + Restores(done) && behind == behind0)
    && (!before ==> front == front0 && behind == Restores(Reverse(done)) + behind0)
  }

  lemma RestoringNext(before: bool, g: Group, done: seq<Group>, saved0: set<nat>, saved: set<nat>,
                      front0: seq<Out>, front: seq<Out>, behind0: seq<Out>, behind: seq<Out>)
    requires Restoring(before, g.first, done, saved0, saved, front0, front, behind0, behind)
    ensures Restoring(before, g.first + g.words, done + [g], saved0, saved - Regs(g.first, g.words),
                      front0, if before then front + [Restore(g)] else front,
                      behind0, if before then behind else [Restore(g)] + behind)
  {
    SnocFacts(done, g);
    Associate(front0, Restores(done), [Restore(g)]);
    Associate([Restore(g)], Restores(Reverse(done)), behind0);
  }

  /** The save loop after saving `done`. */
  ghost predicate Saving(done: seq<Group>, saved0: set<nat>, saved: set<nat>, front0: seq<Out>, front: seq<Out>) {
    saved == saved0 + Covered(done) && front == front0 + Saves(done)
  }

  lemma SavingNext(done: seq<Group>, g: Group, saved0: set<nat>, saved: set<nat>, front0: seq<Out>, front: seq<Out>)
    requires Saving(done, saved0, saved, front0, front)
    ensures Saving(done + [g], saved0, saved + Regs(g.first, g.words), front0, front + [Save(g)])
  {
    SnocFacts(done, g);
    Associate(front0, Saves(done), [Save(g)]);
  }

  /** What is put in front of an insn, in the two steps in which the pass puts it there. */
  lemma BeforeInTwo(c: Config, i: Insn, saved: set<nat>, front: seq<Out>)
    requires Fits(c) && Saveable(c, saved) && CallSaveable(c, i)
    ensures var (gs, s1) := (RestoresBefore(c, i, saved), SavedAfterRestores(c, i, saved));
            && front + OutsBefore(c, i, saved) == front + Restores(gs) + Saves(SavesNow(c, i, s1))
            && SavedAfter(c, i, saved) == s1 + Covered(SavesNow(c, i, s1))
  {
    Associate(front, Restores(RestoresBefore(c, i, saved)), Saves(SavesBefore(c, i, saved)));
  }

  lemma NothingToRestore(c: Config, i: Insn, saved: set<nat>)
    requires Fits(c) && Saveable(c, saved)
    ensures !IsInsn(i) || saved == {} ==> RestoresBefore(c, i, saved) == []
  {
    if !IsInsn(i) || saved == {} {
      assert Referenced(i, saved) == {};
      NoneWanted(c, saved, 0);
    }
  }

  lemma {:induction false} NoneWanted(c: Config, pool: set<nat>, r: nat)
    ensures Groups(c, {}, pool, r) == []
    decreases c.t.nregs - r
  {
    if r < c.t.nregs { NoneWanted(c, pool, r + 1); }
  }

  /** What becomes of the first insn of `rest`, and what is saved after it. */
  ghost function Rewritten(c: Config, rest: seq<Insn>, saved: set<nat>): seq<Out>
    requires Fits(c) && Saveable(c, saved) && AllSaveable(c, rest) && rest != []
  {
    SavedAfterFacts(c, rest[0], saved);
    OutsBefore(c, rest[0], saved)
    + if EndsBlock(rest) then AtEnd(c, rest[0], SavedAfter(c, rest[0], saved)) else [Orig(rest[0])]
  }

  ghost function Carried(c: Config, rest: seq<Insn>, saved: set<nat>): set<nat>
    requires Fits(c) && Saveable(c, saved) && AllSaveable(c, rest) && rest != []
  {
    if EndsBlock(rest) then {} else SavedAfter(c, rest[0], saved)
  }

  lemma RewriteFirst(c: Config, saved: set<nat>, front: seq<Out>, rest: seq<Insn>)
    requires Fits(c) && Saveable(c, saved) && AllSaveable(c, rest) && rest != []
    ensures Saveable(c, Carried(c, rest, saved)) && AllSaveable(c, rest[1..])
    ensures front + RewriteChain(c, saved, rest)
            == front + Rewritten(c, rest, saved) + RewriteChain(c, Carried(c, rest, saved), rest[1..])
    ensures |rest| == 1 ==> Carried(c, rest, saved) == {}
  {
    SavedAfterFacts(c, rest[0], saved);
    Associate(front, Rewritten(c, rest, saved), RewriteChain(c, Carried(c, rest, saved), rest[1..]));
  }

  /** The insn chain with a place in it: the insns before `rest[0]`, those
      inserted right behind it, and the insns still to visit. */
  class Pass {
    const c: Config
    var front: seq<Out>
    var behind: seq<Out>
    var rest: seq<Insn>
    var hardRegsSaved: set<nat>    // registers now in the save area
    var nRegsSaved: nat

    constructor (c: Config, insns: seq<Insn>)
      ensures this.c == c && front == behind == [] && rest == insns && hardRegsSaved == {} && nRegsSaved == 0
    {
      this.c := c;
      front, behind, rest, hardRegsSaved, nRegsSaved := [], [], insns, {}, 0;
    }

    ghost function Chain(): seq<Out>
      reads this
    {
      front + if rest == [] then behind else [Orig(rest[0])] + behind + Origs(rest[1..])
    }

    ghost predicate Counted()
      reads this
    {
      nRegsSaved == |hardRegsSaved|
    }

    /** insert_restore in front of the current insn or behind it: restore as
        many registers from `regno` on as one insn can. */
    method InsertRestore(before: bool, regno: nat) returns (n: nat)
      requires Fits(c) && Saveable(c, hardRegsSaved) && Counted() && regno in hardRegsSaved
      modifies this`front, this`behind, this`hardRegsSaved, this`nRegsSaved
      ensures Counted() && n == Widest(c, old(hardRegsSaved), regno, c.t.moveMaxWords) && n > 0
      ensures hardRegsSaved == old(hardRegsSaved) - Regs(regno, n)
      ensures front == if before then old(front) + [Restore(Group(regno, n))] else old(front)
      ensures behind == if before then old(behind) else [Restore(Group(regno, n))] + old(behind)
    {
      n := FindGroup(hardRegsSaved, regno);
      RemoveRegs(hardRegsSaved, regno, n);
      hardRegsSaved := hardRegsSaved - Regs(regno, n);
      nRegsSaved := nRegsSaved - n;
      if before { front := front + [Restore(Group(regno, n))]; } else { behind := [Restore(Group(regno, n))] + behind; }
    }

    /** insert_save in front of the current insn. */
    method InsertSave(regno: nat, toSave: set<nat>) returns (n: nat)
      requires Fits(c) && Saveable(c, toSave) && regno in toSave
      modifies this`front, this`hardRegsSaved
      ensures n == Widest(c, toSave, regno, c.t.moveMaxWords) && n > 0
      ensures hardRegsSaved == old(hardRegsSaved) + Regs(regno, n)
      ensures front == old(front) + [Save(Group(regno, n))]
    {
      n := FindGroup(toSave, regno);
      hardRegsSaved := hardRegsSaved + Regs(regno, n);
      front := front + [Save(Group(regno, n))];
    }

    /** The search both insertions start with: the widest group first. */
    method FindGroup(pool: set<nat>, regno: nat) returns (n: nat)
      requires Fits(c) && Saveable(c, pool) && regno in pool
      ensures n == Widest(c, pool, regno, c.t.moveMaxWords) && n > 0
    {
      n := c.t.moveMaxWords;
      assert Regs(regno, 1) <= pool;
      while !(Group(regno, n) in c.mem && Regs(regno, n) <= pool)
        invariant 0 < n <= c.t.moveMaxWords
        invariant Widest(c, pool, regno, n) == Widest(c, pool, regno, c.t.moveMaxWords)
        decreases n
      {
        n := n - 1;
      }
    }

    /** Restore the registers of `want` in front of the current insn or behind it. */
    method RestoreAll(before: bool, want: set<nat>)
      requires Fits(c) && Saveable(c, hardRegsSaved) && Counted() && want <= hardRegsSaved
      modifies this`front, this`behind, this`hardRegsSaved, this`nRegsSaved
      ensures Counted()
      ensures var gs := Groups(c, want, old(hardRegsSaved), 0);
              && hardRegsSaved == old(hardRegsSaved) - Covered(gs)
              && (before ==> front == old(front) + Restores(gs) && behind == old(behind))
              && (!before ==> front == old(front) && behind == Restores(Reverse(gs)) + old(behind))
    {
      var regno := 0;
      ghost var done: seq<Group> := [];
      ghost var saved, gs := hardRegsSaved, Groups(c, want, hardRegsSaved, 0);
      FinishIsGroups(c, want, saved, 0, []);
      while regno < c.t.nregs
        invariant 0 <= regno <= c.t.nregs && Counted()
        invariant Finish(c, want, saved, regno, done) == gs
        invariant Restoring(before, regno, done, saved, hardRegsSaved, old(front), front, old(behind), behind)
      {
        regno, done := RestoreNext(before, regno, want, done, saved, old(front), old(behind));
      }
    }

    /** One round of RestoreAll. */
    method RestoreNext(before: bool, regno: nat, want: set<nat>, ghost done: seq<Group>,
                       ghost saved: set<nat>, ghost front0: seq<Out>, ghost behind0: seq<Out>)
      returns (next: nat, ghost done': seq<Group>)
      requires Choosable(c, want, saved) && Counted() && regno < c.t.nregs
      requires Restoring(before, regno, done, saved, hardRegsSaved, front0, front, behind0, behind)
      modifies this`front, this`behind, this`hardRegsSaved, this`nRegsSaved
      ensures Counted() && regno < next <= c.t.nregs
      ensures Finish(c, want, saved, regno, done) == Finish(c, want, saved, next, done')
      ensures Restoring(before, next, done', saved, hardRegsSaved, front0, front, behind0, behind)
    {
      if regno in want {
        var n := RestoreGroup(before, regno, want, done, saved, front0, behind0);
        next, done' := regno + n, done + [Group(regno, n)];
      } else {
        FinishSkip(c, want, saved, regno, done);
        next, done' := regno + 1, done;
      }
    }

    /** Restore the group chosen at `regno`. */
    method RestoreGroup(before: bool, regno: nat, want: set<nat>, ghost done: seq<Group>,
                        ghost saved: set<nat>, ghost front0: seq<Out>, ghost behind0: seq<Out>) returns (n: nat)
      requires Choosable(c, want, saved) && Counted() && regno < c.t.nregs && regno in want
      requires Restoring(before, regno, done, saved, hardRegsSaved, front0, front, behind0, behind)
      modifies this`front, this`behind, this`hardRegsSaved, this`nRegsSaved
      ensures Counted() && n > 0 && regno + n <= c.t.nregs
      ensures Finish(c, want, saved, regno, done) == Finish(c, want, saved, regno + n, done + [Group(regno, n)])
      ensures Restoring(before, regno + n, done + [Group(regno, n)], saved, hardRegsSaved,
                        front0, front, behind0, behind)
    {
      n := InsertRestore(before, regno);
      FinishNext(c, want, saved, old(hardRegsSaved), regno, done, n);
      RestoringNext(before, Group(regno, n), done, saved, old(hardRegsSaved), front0, old(front),
                    behind0, old(behind));
    }

    /** Save the registers of `want` in front of the current insn. */
    method SaveAll(want: set<nat>)
      requires Fits(c) && Saveable(c, want)
      modifies this`front, this`hardRegsSaved
      ensures var gs := Groups(c, want, want, 0);
              hardRegsSaved == old(hardRegsSaved) + Covered(gs) && front == old(front) + Saves(gs)
    {
      var regno := 0;
      ghost var done: seq<Group> := [];
      ghost var saved, gs := hardRegsSaved, Groups(c, want, want, 0);
      FinishIsGroups(c, want, want, 0, []);
      while regno < c.t.nregs
        invariant 0 <= regno <= c.t.nregs
        invariant Finish(c, want, want, regno, done) == gs
        invariant Saving(done, saved, hardRegsSaved, old(front), front)
      {
        if regno in want {
          ghost var saved1, front1 := hardRegsSaved, front;
          var n := InsertSave(regno, want);
          FinishNext(c, want, want, want, regno, done, n);
          SavingNext(done, Group(regno, n), saved, saved1, old(front), front1);
          done, regno := done + [Group(regno, n)], regno + n;
        } else {
          regno := regno + 1;
        }
      }
    }

    /** The recount after the saves of a call. */
    method Recount()
      requires forall r <- hardRegsSaved :: r < c.t.nregs
      modifies this`nRegsSaved
      ensures Counted()
    {
      nRegsSaved := 0;
      ghost var seen: set<nat> := {};
      var regno := 0;
      while regno < c.t.nregs
        invariant 0 <= regno <= c.t.nregs && nRegsSaved == |seen|
        invariant forall r: nat :: r in seen <==> r in hardRegsSaved && r < regno
      {
        if regno in hardRegsSaved {
          nRegsSaved := nRegsSaved + 1;
          seen := seen + {regno};
        }
        regno := regno + 1;
      }
      assert seen == hardRegsSaved;
    }

    /** Restores in front of the current insn `i`. */
    method RestoresFor(i: Insn)
      requires Fits(c) && Saveable(c, hardRegsSaved) && Counted()
      modifies this`front, this`behind, this`hardRegsSaved, this`nRegsSaved
      ensures Counted() && hardRegsSaved == SavedAfterRestores(c, i, old(hardRegsSaved)) && behind == old(behind)
      ensures front == old(front) + Restores(RestoresBefore(c, i, old(hardRegsSaved)))
    {
      NothingToRestore(c, i, hardRegsSaved);
      if IsInsn(i) && nRegsSaved > 0 { RestoreAll(true, Referenced(i, hardRegsSaved)); }
    }

    /** Saves in front of the current insn `i`. */
    method SavesFor(i: Insn)
      requires Fits(c) && Saveable(c, hardRegsSaved) && CallSaveable(c, i) && Counted()
      modifies this`front, this`hardRegsSaved, this`nRegsSaved
      ensures Counted() && hardRegsSaved == old(hardRegsSaved) + Covered(SavesNow(c, i, old(hardRegsSaved)))
      ensures front == old(front) + Saves(SavesNow(c, i, old(hardRegsSaved)))
    {
      if i.kind.Call? {
        GroupsCover(c, Candidates(c, i) - hardRegsSaved, Candidates(c, i) - hardRegsSaved, 0);
        SaveAll(Candidates(c, i) - hardRegsSaved);
        Recount();
      }
    }

    /** Restore what is still saved at the end of a block. */
    method End(i: Insn)
      requires Fits(c) && Saveable(c, hardRegsSaved) && Counted() && behind == []
      modifies this`front, this`behind, this`hardRegsSaved, this`nRegsSaved
      ensures Counted() && hardRegsSaved == {}
      ensures front + [Orig(i)] + behind == old(front) + AtEnd(c, i, old(hardRegsSaved))
    {
      GroupsCover(c, hardRegsSaved, hardRegsSaved, 0);
      NoneWanted(c, {}, 0);
      if nRegsSaved > 0 { RestoreAll(i.kind.Jump?, hardRegsSaved); }
    }

    /** Everything in front of the current insn `i`. */
    method Before(i: Insn)
      requires Fits(c) && Saveable(c, hardRegsSaved) && CallSaveable(c, i) && Counted()
      modifies this`front, this`behind, this`hardRegsSaved, this`nRegsSaved
      ensures Counted() && hardRegsSaved == SavedAfter(c, i, old(hardRegsSaved)) && behind == old(behind)
      ensures front == old(front) + OutsBefore(c, i, old(hardRegsSaved))
    {
      SavedAfterFacts(c, i, hardRegsSaved);
      BeforeInTwo(c, i, hardRegsSaved, front);
      RestoresFor(i);
      SavesFor(i);
    }

    /** Handle the current insn and go on to the one that was next to it. */
    method Visit()
      requires Fits(c) && Saveable(c, hardRegsSaved) && Counted() && behind == [] && rest != [] && AllSaveable(c, rest)
      modifies this
      ensures Counted() && behind == []
      ensures hardRegsSaved == Carried(c, old(rest), old(hardRegsSaved)) && rest == old(rest)[1..]
      ensures front == old(front) + Rewritten(c, old(rest), old(hardRegsSaved))
    {
      var i, next := rest[0], rest[1..];
      var last := |rest| == 1 || rest[1].block > i.block;
      SavedAfterFacts(c, i, hardRegsSaved);
      ghost var saved := SavedAfter(c, i, hardRegsSaved);
      Associate(front, OutsBefore(c, i, hardRegsSaved), if last then AtEnd(c, i, saved) else [Orig(i)]);
      Before(i);
      if last { End(i); }
      front, behind, rest := front + [Orig(i)] + behind, [], next;
    }

    /** The pass: walk the chain from its first insn. */
    method SaveCallClobberedRegs()
      requires Fits(c) && AllSaveable(c, rest) && front == behind == []
      modifies this
      ensures Chain() == RewriteChain(c, {}, old(rest))
      ensures hardRegsSaved == {} && nRegsSaved == 0
    {
      hardRegsSaved, nRegsSaved := {}, 0;
      ghost var insns := rest;
      while rest != []
        invariant Counted() && Saveable(c, hardRegsSaved) && AllSaveable(c, rest) && behind == []
        invariant front + RewriteChain(c, hardRegsSaved, rest) == RewriteChain(c, {}, insns)
        invariant rest == [] ==> hardRegsSaved == {}
        decreases |rest|
      {
        RewriteFirst(c, hardRegsSaved, front, rest);
        Visit();
      }
    }
  }

  lemma {:induction false} RemoveRegs(s: set<nat>, r: nat, n: nat)
    requires Regs(r, n) <= s
    ensures |s - Regs(r, n)| == |s| - n && |s| >= n
  {
    if n > 0 {
      RemoveRegs(s, r, n - 1);
      var t := s - Regs(r, n - 1);
      assert r + n - 1 in t && s - Regs(r, n) == t - {r + n - 1};
    }
  }
}
