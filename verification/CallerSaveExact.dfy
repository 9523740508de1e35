/** Exactly when caller-save keeps what insns read: when no call finds one of its
    argument registers in the save area, and none ruins an argument register, or
    a register that is never saved, that is needed again. */
module CallerSaveExact {
  import opened Sequences
  import opened SaveAreas
  import opened CallerSave

  type Trace = seq<seq<seq<int>>>

  /** Two traces differ at some insn that both reach. */
  ghost predicate Differ(a: Trace, b: Trace) { exists k :: 0 <= k < |a| && k < |b| && a[k] != b[k] }

  lemma DifferExtends(a: Trace, b: Trace, x: Trace, y: Trace)
    requires Differ(a, b)
    ensures Differ(a + x, b + y)
  {
    var k :| 0 <= k < |a| && k < |b| && a[k] != b[k];
    assert (a + x)[k] == a[k] && (b + y)[k] == b[k];
  }

  lemma DifferBehind(p: Trace, q: Trace, a: Trace, b: Trace)
    requires |p| == |q| && Differ(a, b)
    ensures Differ(p + a, q + b)
  {
    var k :| 0 <= k < |a| && k < |b| && a[k] != b[k];
    assert (p + a)[|p| + k] == a[k] && (q + b)[|q| + k] == b[k];
  }

  // ----- a machine on which no wrong register goes unseen -----

  function Joined(ws: seq<seq<int>>): seq<int> { if ws == [] then [] else ws[0] + Joined(ws[1..]) }

  /** The machine on which every result is 0, every ruined register 1, and
      everything passes the words of its operands on. */
  function Marking<M>(): Machine<M> {
    Machine((_, args) => Joined(args), (_, addr) => addr, (w, _) => w,
            (_, _, _, _) => 0, (_, _, mem) => mem, (_, _, _, _) => 1)
  }

  ghost predicate Zeros(w: seq<int>) { forall k :: 0 <= k < |w| ==> w[k] == 0 }

  ghost predicate AllZero<M>(s: Source<M>) { forall r: nat :: s.regs(r) == 0 }

  lemma {:induction false} EvalZeros<M>(e: Expr, g: RegFile, mem: M)
    requires forall r: nat :: g(r) == 0
    ensures Zeros(Eval(Marking<M>(), e, g, mem))
    decreases e, 0
  {
    match e
    case RegX(_, _) =>
    case MemX(a) => EvalZeros(a, g, mem);
    case SubregX(i, _) => EvalZeros(i, g, mem);
    case OpX(_, args) => EvalAllZeros(args, g, mem);
  }

  lemma {:induction false} EvalAllZeros<M>(es: seq<Expr>, g: RegFile, mem: M)
    requires forall r: nat :: g(r) == 0
    ensures var ws := EvalAll(Marking<M>(), es, g, mem);
            |ws| == |es| && Zeros(Joined(ws)) && forall k :: 0 <= k < |ws| ==> Zeros(ws[k])
    decreases es, 1
  {
    if es != [] {
      EvalZeros(es[0], g, mem);
      EvalAllZeros(es[1..], g, mem);
    }
  }

  /** A register that is not zero shows in every expression that references it. */
  lemma {:induction false} EvalSees<M>(e: Expr, f: RegFile, mem: M, r: nat)
    requires r in MarkExpr(e) && f(r) != 0
    ensures !Zeros(Eval(Marking<M>(), e, f, mem))
    decreases e, 0
  {
    match e
    case RegX(first, n) => assert Words(f, first, n)[r - first] == f(r);
    case MemX(a) => EvalSees(a, f, mem, r);
    case SubregX(i, _) => EvalSees(i, f, mem, r);
    case OpX(_, args) => EvalAllSees(args, f, mem, r);
  }

  lemma {:induction false} EvalAllSees<M>(es: seq<Expr>, f: RegFile, mem: M, r: nat)
    requires r in MarkAll(es) && f(r) != 0
    ensures var ws := EvalAll(Marking<M>(), es, f, mem);
            |ws| == |es| && !Zeros(Joined(ws)) && exists k :: 0 <= k < |ws| && !Zeros(ws[k])
    decreases es, 1
  {
    var m := Marking<M>();
    var ws, vs := EvalAll(m, es, f, mem), EvalAll(m, es[1..], f, mem);
    assert ws[0] == Eval(m, es[0], f, mem) && ws[1..] == vs;
    OperandCount(m, es, f, mem);
    if r in MarkExpr(es[0]) {
      EvalSees(es[0], f, mem, r);
      NotZeroPart(ws[0], Joined(vs));
    } else {
      EvalAllSees(es[1..], f, mem, r);
      NotZeroPart(ws[0], Joined(vs));
      var k :| 0 <= k < |vs| && !Zeros(vs[k]);
      assert ws[k + 1] == vs[k];
    }
  }

  lemma NotZeroPart(a: seq<int>, b: seq<int>)
    ensures Zeros(a + b) ==> Zeros(a) && Zeros(b)
  {
    if Zeros(a + b) {
      forall k | 0 <= k < |a| ensures a[k] == 0 { assert (a + b)[k] == a[k]; }
      forall k | 0 <= k < |b| ensures b[k] == 0 { assert (a + b)[|a| + k] == b[k]; }
    }
  }

  lemma {:induction false} OperandCount<M>(m: Machine<M>, es: seq<Expr>, f: RegFile, mem: M)
    ensures |EvalAll(m, es, f, mem)| == |es|
  {
    if es != [] { OperandCount(m, es[1..], f, mem); }
  }

  lemma {:induction false} Picked(s: set<nat>, f: RegFile, n: nat)
    ensures |Pick(s, f, n)| == n && forall r :: 0 <= r < n && r in s ==> Pick(s, f, n)[r] == [f(r)]
  {
    if n > 0 { Picked(s, f, n - 1); }
  }

  /** An insn sees a register that is not zero where it should be. */
  lemma {:induction false} WrongRead<M>(t: Target, i: Insn, f: RegFile, g: RegFile, mem: M, mem': M, r: nat)
    requires r in Reads(i) && r < t.nregs && f(r) != 0 && forall q: nat :: g(q) == 0
    ensures Observed(Marking<M>(), t, i, f, mem) != Observed(Marking<M>(), t, i, g, mem')
  {
    var m, es := Marking<M>(), AllOperands(i.pat);
    var ws, vs := EvalAll(m, es, f, mem), EvalAll(m, es, g, mem');
    var os, ps := Observed(m, t, i, f, mem), Observed(m, t, i, g, mem');
    OperandCount(m, es, f, mem);
    OperandCount(m, es, g, mem');
    MarkedAreOperands(i.pat);
    if r in Marked(i.pat) {
      EvalAllSees(es, f, mem, r);
      EvalAllZeros(es, g, mem');
      var k :| 0 <= k < |ws| && !Zeros(ws[k]);
      assert os[k] == ws[k] && ps[k] == vs[k];
    } else {
      Picked(i.usage, f, t.nregs);
      Picked(i.usage, g, t.nregs);
      assert os[|es| + r] == [f(r)] && ps[|es| + r] == [g(r)];
    }
  }

  // ----- where values are -----

  /** The value of a register, in its slot or in place. */
  function ValueOf<M>(c: Config, saved: set<nat>, z: Saved<M>, r: nat): int {
    if r in saved && HasSlot(c.mem, r) then z.area(Slot(c.mem, r)) else z.regs(r)
  }

  /** What is put in front of an insn reads nothing and moves no value but to
      and from its slot; what stays in the save area keeps its register. */
  lemma {:induction false} BeforeMoves<M>(c: Config, lost: set<nat>, i: Insn, saved: set<nat>, z: Saved<M>)
    requires Prepared(c) && Saveable(c, saved) && CallSaveable(c, i)
    ensures var (m, os, s1) := (Marking<M>(), OutsBefore(c, i, saved), SavedAfterRestores(c, i, saved));
            && (forall o <- os :: Uses(c, o)) && TraceOut(m, c, lost, os, z) == []
            && var z1 := RunOut(m, c, lost, os, z);
               && (forall r <- s1 :: z1.regs(r) == z.regs(r))
               && (forall r: nat :: r !in s1 ==> z1.regs(r) == ValueOf(c, saved, z, r))
               && (forall r: nat :: ValueOf(c, SavedAfter(c, i, saved), z1, r) == ValueOf(c, saved, z, r))
  {
    var m := Marking<M>();
    var gs, hs, s1 := RestoresBefore(c, i, saved), SavesBefore(c, i, saved), SavedAfterRestores(c, i, saved);
    SavedAfterFacts(c, i, saved);
    SavesUse(c, gs);
    SavesUse(c, hs);
    RestoresDo(m, c, lost, gs, z);
    var z1 := RunOut(m, c, lost, Restores(gs), z);
    SavesDo(m, c, lost, hs, z1);
    RunConcat(m, c, lost, Restores(gs), Saves(hs), z);
    NothingMoves(c, saved, Covered(gs), Covered(hs), z, z1, RunOut(m, c, lost, Saves(hs), z1));
    assert Covered(hs) !! s1 by {
      if i.kind.Call? { GroupsCover(c, Candidates(c, i) - s1, Candidates(c, i) - s1, 0); }
    }
  }

  /** Restoring some registers and then saving others. */
  lemma {:induction false} NothingMoves<M>(c: Config, saved: set<nat>, gs: set<nat>, hs: set<nat>,
                                           z: Saved<M>, z1: Saved<M>, z2: Saved<M>)
    requires Saveable(c, saved) && gs <= saved && Loaded(c, gs, z, z1) && Stored(c, hs, z1, z2)
    requires forall r <- hs :: HasSlot(c.mem, r)
    ensures forall r: nat :: r !in saved - gs ==> z2.regs(r) == ValueOf(c, saved, z, r)
    ensures forall r <- saved - gs :: z2.regs(r) == z.regs(r)
    ensures hs !! saved - gs ==> forall r: nat :: ValueOf(c, saved - gs + hs, z2, r) == ValueOf(c, saved, z, r)
  {
  }

  // ----- splitting a block at its first insn -----

  /** What the rewriting of a block puts behind its first insn. */
  function Behind(c: Config, saved: set<nat>, insns: seq<Insn>): seq<Out>
    requires Fits(c) && Saveable(c, saved) && insns != [] && forall i <- insns :: CallSaveable(c, i)
  {
    var i := insns[0];
    SavedAfterFacts(c, i, saved);
    var s := SavedAfter(c, i, saved);
    if |insns| > 1 then RewriteBlock(c, s, insns[1..])
    else if i.kind.Jump? then []
    else Restores(Reverse(Groups(c, s, s, 0)))
  }

  lemma {:induction false} BlockSplits(c: Config, saved: set<nat>, insns: seq<Insn>)
    requires Fits(c) && Saveable(c, saved) && insns != [] && forall i <- insns :: CallSaveable(c, i)
    ensures RewriteBlock(c, saved, insns)
            == OutsBefore(c, insns[0], saved) + [Orig(insns[0])] + Behind(c, saved, insns)
    ensures insns[0].kind.Jump? ==> SavedAfter(c, insns[0], saved) == {}
  {
    var i := insns[0];
    SavedAfterFacts(c, i, saved);
    if i.kind.Jump? { assert SavedAfter(c, i, saved) == {}; }
    if |insns| == 1 {
      if i.kind.Jump? { NoGroups(c, 0); }
      Regroup(OutsBefore(c, i, saved), Orig(i), Behind(c, saved, insns));
    }
  }

  lemma Regroup(a: seq<Out>, o: Out, b: seq<Out>)
    ensures a + ([o] + b) == a + [o] + b && (b == [] ==> a + (b + [o]) == a + [o] + b)
  {
  }

  lemma {:induction false} BlockUses(c: Config, saved: set<nat>, insns: seq<Insn>)
    requires Prepared(c) && Saveable(c, saved) && forall i <- insns :: CallSaveable(c, i)
    ensures forall o <- RewriteBlock(c, saved, insns) :: Uses(c, o)
    decreases |insns|
  {
    if insns != [] {
      var i := insns[0];
      SavedAfterFacts(c, i, saved);
      SavesUse(c, RestoresBefore(c, i, saved));
      SavesUse(c, SavesBefore(c, i, saved));
      var s := SavedAfter(c, i, saved);
      var last := Groups(c, s, s, 0);
      SavesUse(c, last);
      ReverseCovers(last);
      SavesUse(c, Reverse(last));
      if |insns| > 1 { BlockUses(c, s, insns[1..]); }
    }
  }

  /** At the end of a block every value comes back to its register. */
  lemma {:induction false} EndMoves<M>(c: Config, lost: set<nat>, saved: set<nat>, insns: seq<Insn>, z: Saved<M>)
    requires Prepared(c) && Saveable(c, saved) && |insns| == 1 && forall i <- insns :: CallSaveable(c, i)
    ensures var (m, tail, s) := (Marking<M>(), Behind(c, saved, insns), SavedAfter(c, insns[0], saved));
            && (forall o <- tail :: Uses(c, o)) && TraceOut(m, c, lost, tail, z) == []
            && forall r: nat :: RunOut(m, c, lost, tail, z).regs(r) == ValueOf(c, s, z, r)
  {
    var m, i := Marking<M>(), insns[0];
    BlockSplits(c, saved, insns);
    SavedAfterFacts(c, i, saved);
    if !i.kind.Jump? {
      var s := SavedAfter(c, i, saved);
      var last := Groups(c, s, s, 0);
      GroupsCover(c, s, s, 0);
      ReverseCovers(last);
      SavesUse(c, Reverse(last));
      RestoresDo(m, c, lost, Reverse(last), z);
      assert Covered(last) == s;
    }
  }

  /** The run and the trace of a rewritten block, from what its first insn reads on. */
  lemma {:induction false} FirstOfBlock<M>(c: Config, lost: set<nat>, insns: seq<Insn>, saved: set<nat>, z: Saved<M>)
    returns (z1: Saved<M>)
    requires Prepared(c) && Saveable(c, saved) && insns != [] && forall i <- insns :: CallSaveable(c, i)
    ensures forall o <- RewriteBlock(c, saved, insns) + Behind(c, saved, insns) :: Uses(c, o)
    ensures var (i, s1) := (insns[0], SavedAfterRestores(c, insns[0], saved));
            && (forall r <- s1 :: z1.regs(r) == z.regs(r))
            && (forall r: nat :: r !in s1 ==> z1.regs(r) == ValueOf(c, saved, z, r))
            && (forall r: nat :: ValueOf(c, SavedAfter(c, i, saved), z1, r) == ValueOf(c, saved, z, r))
    ensures var (m, i) := (Marking<M>(), insns[0]);
            var (os, tail) := (RewriteBlock(c, saved, insns), Behind(c, saved, insns));
            var z2 := StepSaved(m, c, lost, i, z1);
            && RunOut(m, c, lost, os, z) == RunOut(m, c, lost, tail, z2)
            && TraceOut(m, c, lost, os, z) == [Observed(m, c.t, i, z1.regs, z1.mem)] + TraceOut(m, c, lost, tail, z2)
  {
    var m, i := Marking<M>(), insns[0];
    BlockSplits(c, saved, insns);
    BlockUses(c, saved, insns);
    BeforeMoves(c, lost, i, saved, z);
    z1 := RunOut(m, c, lost, OutsBefore(c, i, saved), z);
    RunAround(m, c, lost, OutsBefore(c, i, saved), i, Behind(c, saved, insns), z);
  }

  /** A rewritten block reads as often as the block has insns. */
  lemma {:induction false} BlockTraceLength<M>(c: Config, lost: set<nat>, insns: seq<Insn>, saved: set<nat>,
                                               s: Source<M>, z: Saved<M>)
    requires Prepared(c) && Saveable(c, saved) && forall i <- insns :: CallSaveable(c, i)
    ensures forall o <- RewriteBlock(c, saved, insns) :: Uses(c, o)
    ensures |TraceOut(Marking<M>(), c, lost, RewriteBlock(c, saved, insns), z)| == |insns|
    ensures |TraceSource(Marking<M>(), c, insns, s)| == |insns|
    decreases |insns|
  {
    if insns != [] {
      var m, i := Marking<M>(), insns[0];
      SavedAfterFacts(c, i, saved);
      var z1 := FirstOfBlock(c, lost, insns, saved, z);
      var z2, s' := StepSaved(m, c, lost, i, z1), StepSource(m, c, i, s);
      BlockTraceLength(c, lost, insns[1..], SavedAfter(c, i, saved), s', z2);
      if |insns| == 1 { EndMoves(c, lost, saved, insns, z2); }
    }
  }

  // ----- wrong values do not go unseen -----

  /** What calls ruin is call-used, and hard; they ruin whatever the pass might save. */
  ghost predicate Ruins(c: Config, lost: set<nat>, insns: seq<Insn>) {
    && lost <= c.callUsed && (forall r <- lost :: r < c.t.nregs)
    && forall i <- insns :: i.kind.Call? ==> Candidates(c, i) <= lost
  }

  /** Everything in the save area is marked in its register, still needed, and
      not one of the registers that are never saved. */
  ghost predicate Marks<M>(c: Config, insns: seq<Insn>, out: set<nat>, saved: set<nat>, z: Saved<M>) {
    forall r <- saved :: z.regs(r) == 1 && r !in c.callFixed && LiveAt(insns, out, r)
  }

  /** A register that is needed has the mark for its value. */
  ghost predicate Tainted<M>(c: Config, insns: seq<Insn>, need: set<nat>, saved: set<nat>, z: Saved<M>, r: nat) {
    r < c.t.nregs && LiveAt(insns, need, r) && ValueOf(c, saved, z, r) == 1
  }

  /** The pass saves only what is live behind the call. */
  lemma {:induction false} OnlyLiveSaved(c: Config, i: Insn, rest: seq<Insn>, out: set<nat>)
    requires i.kind.Call? && LivenessAt(i, rest, out)
    ensures forall r <- Candidates(c, i) :: LiveAt(rest, out, r) && !Written(i, r) && r !in c.callFixed
  {
    forall r | r in Candidates(c, i) ensures LiveAt(rest, out, r) && !Written(i, r) && r !in c.callFixed {
      CandidatesIff(c, i, rest, out, r);
    }
  }

  /** An insn whose arguments are ready keeps the marks, and makes those of a call. */
  lemma {:induction false} InsnMarks<M>(c: Config, lost: set<nat>, insns: seq<Insn>, out: set<nat>, saved: set<nat>,
                                        z: Saved<M>)
    requires insns != [] && Liveness(insns, out) && Ruins(c, lost, insns)
    requires Marks(c, insns, out, saved, z) && saved * Referenced(insns[0], saved) == {}
    requires insns[0].kind.Call? ==> insns[0].usage * saved == {}
    ensures Marks(c, insns[1..], out, if insns[0].kind.Call? then saved + Candidates(c, insns[0]) else saved,
                  StepSaved(Marking<M>(), c, lost, insns[0], z))
  {
    var i := insns[0];
    forall r | r in saved ensures r !in Reads(i) && !Written(i, r) {
      assert LiveAt(insns, out, r) && r !in Referenced(i, saved);
      assert i.kind.Call? ==> r !in i.usage;
    }
    if i.kind.Call? { OnlyLiveSaved(c, i, insns[1..], out); }
    assert i in insns;
  }

  /** A taint that an insn does not read stays. */
  lemma {:induction false} TaintStays<M>(c: Config, lost: set<nat>, insns: seq<Insn>, need: set<nat>, saved: set<nat>,
                                         z: Saved<M>, r: nat)
    requires insns != [] && Tainted(c, insns, need, saved, z, r) && r !in Reads(insns[0])
    ensures Tainted(c, insns[1..], need, saved, StepSaved(Marking<M>(), c, lost, insns[0], z), r)
  {
  }

  /** A call that ruins an argument register that is needed again taints it. */
  lemma {:induction false} CallTaints<M>(c: Config, lost: set<nat>, insns: seq<Insn>, need: set<nat>, saved: set<nat>,
                                         z: Saved<M>) returns (r: nat)
    requires insns != [] && insns[0].kind.Call? && Ruins(c, lost, insns)
    requires !ArgumentsDieAt(c, lost, insns[0], insns[1..], need)
    requires forall q <- saved :: q !in c.callFixed && q !in insns[0].usage
    ensures Tainted(c, insns[1..], need, saved + Candidates(c, insns[0]),
                    StepSaved(Marking<M>(), c, lost, insns[0], z), r)
  {
    var i := insns[0];
    r :| r in lost * (i.usage + c.callFixed) && !Written(i, r) && LiveAt(insns[1..], need, r);
  }

  /** Some call finds an argument in the save area or ruins a needed one, or a
      needed value is wrong already. */
  ghost predicate AtRisk<M>(c: Config, lost: set<nat>, insns: seq<Insn>, need: set<nat>, saved: set<nat>, z: Saved<M>)
    requires Fits(c) && Saveable(c, saved) && forall i <- insns :: CallSaveable(c, i)
  {
    || !ArgumentsReady(c, saved, insns) || !ArgumentsDie(c, lost, insns, need)
    || exists r :: Tainted(c, insns, need, saved, z, r)
  }

  /** The marking machine shows it, in what an insn reads or in what is needed at the end. */
  ghost predicate Exposed<M>(c: Config, lost: set<nat>, insns: seq<Insn>, need: set<nat>, os: seq<Out>,
                             s: Source<M>, z: Saved<M>)
    requires forall o <- os :: Uses(c, o)
  {
    || Differ(TraceOut(Marking<M>(), c, lost, os, z), TraceSource(Marking<M>(), c, insns, s))
    || exists q <- need :: q < c.t.nregs && RunOut(Marking<M>(), c, lost, os, z).regs(q) == 1
  }

  /** The first insn of a block at risk: it reads a mark, or the rest is at risk,
      or nothing follows and a needed value is wrong. */
  lemma {:induction false} RiskMovesOn<M>(c: Config, lost: set<nat>, insns: seq<Insn>, out: set<nat>, need: set<nat>,
                                          saved: set<nat>, s: Source<M>, z: Saved<M>, z1: Saved<M>)
    requires Prepared(c) && Saveable(c, saved) && insns != [] && forall i <- insns :: CallSaveable(c, i)
    requires Liveness(insns, out) && Ruins(c, lost, insns) && AllZero(s) && Marks(c, insns, out, saved, z)
    requires AtRisk(c, lost, insns, need, saved, z)
    requires var (i, s1) := (insns[0], SavedAfterRestores(c, insns[0], saved));
             && (forall r <- s1 :: z1.regs(r) == z.regs(r))
             && (forall r: nat :: r !in s1 ==> z1.regs(r) == ValueOf(c, saved, z, r))
             && (forall r: nat :: ValueOf(c, SavedAfter(c, i, saved), z1, r) == ValueOf(c, saved, z, r))
    ensures Saveable(c, SavedAfter(c, insns[0], saved))
    ensures var (m, i, s2) := (Marking<M>(), insns[0], SavedAfter(c, insns[0], saved));
            var z2 := StepSaved(m, c, lost, i, z1);
            || Observed(m, c.t, i, z1.regs, z1.mem) != Observed(m, c.t, i, s.regs, s.mem)
            || (Marks(c, insns[1..], out, s2, z2) && AtRisk(c, lost, insns[1..], need, s2, z2))
  {
    var m, i, rest := Marking<M>(), insns[0], insns[1..];
    SavedAfterFacts(c, i, saved);
    var s1, s2 := SavedAfterRestores(c, i, saved), SavedAfter(c, i, saved);
    var z2 := StepSaved(m, c, lost, i, z1);
    if i.kind.Call? && i.usage * s1 != {} {
      var r :| r in i.usage * s1;
      WrongRead(c.t, i, z1.regs, s.regs, z1.mem, s.mem, r);
    } else {
      assert s1 * Referenced(i, s1) == {};
      InsnMarks(c, lost, insns, out, s1, z1);
      if r :| Tainted(c, insns, need, saved, z, r) {
        if r in Reads(i) {
          assert r in s1 ==> r !in Referenced(i, saved);
          WrongRead(c.t, i, z1.regs, s.regs, z1.mem, s.mem, r);
        } else {
          TaintStays(c, lost, insns, need, s2, z1, r);
        }
      } else if i.kind.Call? && !ArgumentsDieAt(c, lost, i, rest, need) {
        var r := CallTaints(c, lost, insns, need, s1, z1);
      }
    }
  }

  /** A block at risk is exposed. */
  lemma {:induction false} RiskIsExposed<M>(c: Config, lost: set<nat>, insns: seq<Insn>, out: set<nat>, need: set<nat>,
                                            saved: set<nat>, s: Source<M>, z: Saved<M>)
    requires Prepared(c) && Saveable(c, saved) && insns != [] && forall i <- insns :: CallSaveable(c, i)
    requires Liveness(insns, out) && Ruins(c, lost, insns) && AllZero(s) && Marks(c, insns, out, saved, z)
    requires AtRisk(c, lost, insns, need, saved, z)
    ensures forall o <- RewriteBlock(c, saved, insns) :: Uses(c, o)
    ensures Exposed(c, lost, insns, need, RewriteBlock(c, saved, insns), s, z)
    decreases |insns|
  {
    var m, i := Marking<M>(), insns[0];
    var z1 := FirstOfBlock(c, lost, insns, saved, z);
    RiskMovesOn(c, lost, insns, out, need, saved, s, z, z1);
    var tail := Behind(c, saved, insns);
    var z2, s' := StepSaved(m, c, lost, i, z1), StepSource(m, c, i, s);
    var seen, meant := Observed(m, c.t, i, z1.regs, z1.mem), Observed(m, c.t, i, s.regs, s.mem);
    var rest, rest' := TraceOut(m, c, lost, tail, z2), TraceSource(m, c, insns[1..], s');
    if seen != meant {
      assert ([seen] + rest)[0] != ([meant] + rest')[0];
    } else if |insns| == 1 {
      EndMoves(c, lost, saved, insns, z2);
      assert insns[1..] == [];
      var r :| Tainted(c, [], need, SavedAfter(c, i, saved), z2, r);
      assert r in need;
    } else {
      RiskIsExposed(c, lost, insns[1..], out, need, SavedAfter(c, i, saved), s', z2);
      if Differ(rest, rest') { DifferBehind([seen], [meant], rest, rest'); }
    }
  }

  // ----- exactly when a block is simulated -----

  /** States to start from in which everything is zero. */
  function ZeroSource<M>(mem: M): Source<M> { Source(_ => 0, mem) }

  function ZeroSaved<M>(mem: M): Saved<M> { Saved(_ => 0, mem, _ => 0) }

  /** The rewritten block behaves as the original one on every machine, from
      every state that stands for the original state. */
  ghost predicate Simulated<M(!new)>(c: Config, lost: set<nat>, b: Block)
    requires Fits(c) && SaveableBlock(c, b)
  {
    forall m: Machine<M>, s: Source<M>, z: Saved<M> :: Stands(c, b.insns, b.out, b.out, {}, s, z) ==>
      SameBehaviour(m, c, lost, b.insns, b.out, RewriteBlock(c, {}, b.insns), s, z)
  }

  /** Where liveness is correct and calls ruin what they may, caller-save
      preserves a block exactly if no call finds one of its arguments in the save
      area, or ruins an argument or never saved register that is needed again. */
  lemma {:induction false} BlockSimulatesIff<M(!new)>(c: Config, lost: set<nat>, b: Block, mem: M)
    requires Prepared(c) && SaveableBlock(c, b) && GoodBlock(c, b) && Ruins(c, lost, b.insns)
    ensures ReadyBlock(c, b) && ArgumentsDie(c, lost, b.insns, b.out) <==> Simulated<M>(c, lost, b)
  {
    if ReadyBlock(c, b) && ArgumentsDie(c, lost, b.insns, b.out) {
      forall m: Machine<M>, s: Source<M>, z: Saved<M> | Stands(c, b.insns, b.out, b.out, {}, s, z)
        ensures SameBehaviour(m, c, lost, b.insns, b.out, RewriteBlock(c, {}, b.insns), s, z)
      {
        BlockSimulates(m, c, lost, b.insns, b.out, b.out, {}, s, z);
      }
    } else {
      var m, s, z := Marking<M>(), ZeroSource(mem), ZeroSaved(mem);
      RiskIsExposed(c, lost, b.insns, b.out, b.out, {}, s, z);
      StaysZero(c, b.insns, s);
      assert Stands(c, b.insns, b.out, b.out, {}, s, z);
      ExposedMisbehaves(c, lost, b.insns, b.out, RewriteBlock(c, {}, b.insns), s, z);
    }
  }

  lemma {:induction false} StaysZero<M>(c: Config, insns: seq<Insn>, s: Source<M>)
    requires AllZero(s)
    ensures AllZero(RunSource(Marking<M>(), c, insns, s))
  {
    if insns != [] { StaysZero(c, insns[1..], StepSource(Marking<M>(), c, insns[0], s)); }
  }

  lemma {:induction false} ExposedMisbehaves<M>(c: Config, lost: set<nat>, insns: seq<Insn>, need: set<nat>,
                                                os: seq<Out>, s: Source<M>, z: Saved<M>)
    requires (forall o <- os :: Uses(c, o)) && Exposed(c, lost, insns, need, os, s, z)
    requires AllZero(RunSource(Marking<M>(), c, insns, s))
    ensures !SameBehaviour(Marking<M>(), c, lost, insns, need, os, s, z)
  {
    var m := Marking<M>();
    var end, end' := RunSource(m, c, insns, s), RunOut(m, c, lost, os, z);
    if !Differ(TraceOut(m, c, lost, os, z), TraceSource(m, c, insns, s)) {
      var q :| q in need && end'.regs(q) == 1;
      assert LiveAt([], need, q) && end.regs(q) == 0;
    }
  }

  // ----- exactly when a path is simulated -----

  ghost predicate GoodPath(c: Config, lost: set<nat>, path: seq<Block>) {
    && path != [] && IsPath(path)
    && forall b <- path :: GoodBlock(c, b) && SaveableBlock(c, b) && Ruins(c, lost, b.insns)
  }

  ghost predicate ReadyPath(c: Config, path: seq<Block>)
    requires Fits(c) && forall b <- path :: SaveableBlock(c, b)
  {
    forall b <- path :: ReadyBlock(c, b)
  }

  ghost predicate SimulatedPath<M(!new)>(c: Config, lost: set<nat>, path: seq<Block>)
    requires Prepared(c) && GoodPath(c, lost, path)
  {
    forall m: Machine<M>, s: Source<M>, z: Saved<M> :: PathBehaves(m, c, lost, path, s, z)
  }

  ghost predicate PathBehaves<M>(m: Machine<M>, c: Config, lost: set<nat>, path: seq<Block>, s: Source<M>, z: Saved<M>)
    requires Prepared(c) && GoodPath(c, lost, path)
  {
    StandsOnPath(path, s, z) ==>
      SameBehaviour(m, c, lost, PathInsns(path), LastOut(path), PathOuts(c, path), s, z)
  }

  lemma {:induction false} PathUses(c: Config, path: seq<Block>)
    requires Prepared(c) && forall b <- path :: SaveableBlock(c, b)
    ensures forall o <- PathOuts(c, path) :: Uses(c, o)
  {
    if path != [] {
      assert SaveableBlock(c, path[0]);
      BlockUses(c, {}, path[0].insns);
      PathUses(c, path[1..]);
    }
  }

  /** A path at risk, or with a wrong value at its start. */
  ghost predicate PathAtRisk<M>(c: Config, lost: set<nat>, path: seq<Block>, z: Saved<M>)
    requires Prepared(c) && GoodPath(c, lost, path)
  {
    || !ReadyPath(c, path) || !ArgumentsDie(c, lost, PathInsns(path), LastOut(path))
    || exists r :: Tainted(c, PathInsns(path), LastOut(path), {}, z, r)
  }

  /** Either the first block is at risk, for what the rest needs of it, or the rest is. */
  lemma {:induction false} RiskOfFirst<M>(c: Config, lost: set<nat>, path: seq<Block>, z: Saved<M>)
    requires Prepared(c) && GoodPath(c, lost, path) && PathAtRisk(c, lost, path, z)
    ensures AtRisk(c, lost, path[0].insns, NeedBehind(path), {}, z)
            || (path[1..] != [] && (!ReadyPath(c, path[1..])
                                    || !ArgumentsDie(c, lost, PathInsns(path[1..]), LastOut(path[1..]))))
  {
    var b, rest := path[0], path[1..];
    assert b in path && path == [b] + rest;
    NeedIsLive(path);
    DieConcat(c, lost, b.insns, PathInsns(rest), LastOut(path));
    if r :| Tainted(c, PathInsns(path), LastOut(path), {}, z, r) {
      assert Tainted(c, b.insns, NeedBehind(path), {}, z, r);
    }
  }

  lemma {:induction false} PathRiskIsExposed<M>(c: Config, lost: set<nat>, path: seq<Block>, s: Source<M>, z: Saved<M>)
    requires Prepared(c) && GoodPath(c, lost, path) && AllZero(s) && PathAtRisk(c, lost, path, z)
    ensures forall o <- PathOuts(c, path) :: Uses(c, o)
    ensures Exposed(c, lost, PathInsns(path), LastOut(path), PathOuts(c, path), s, z)
    decreases |path|
  {
    var m, b, rest := Marking<M>(), path[0], path[1..];
    assert b in path;
    PathUses(c, path);
    PathUses(c, rest);
    BlockTraceLength(c, lost, b.insns, {}, s, z);
    StaysZero(c, b.insns, s);
    RiskOfFirst(c, lost, path, z);
    var os := RewriteBlock(c, {}, b.insns);
    var s', z' := RunSource(m, c, b.insns, s), RunOut(m, c, lost, os, z);
    SourceConcat(m, c, b.insns, PathInsns(rest), s);
    RunConcat(m, c, lost, os, PathOuts(c, rest), z);
    var t, t' := TraceOut(m, c, lost, os, z), TraceSource(m, c, b.insns, s);
    var u, u' := TraceOut(m, c, lost, PathOuts(c, rest), z'), TraceSource(m, c, PathInsns(rest), s');
    if AtRisk(c, lost, b.insns, NeedBehind(path), {}, z) {
      RiskIsExposed(c, lost, b.insns, b.out, NeedBehind(path), {}, s, z);
    }
    if Differ(t, t') {
      DifferExtends(t, t', u, u');
    } else if rest == [] {
      assert PathInsns(rest) == [] && PathOuts(c, rest) == [] && NeedBehind(path) == LastOut(path);
    } else {
      TaintOfRest(c, lost, path, z');
      PathRiskIsExposed(c, lost, rest, s', z');
      if Differ(u, u') { DifferBehind(t, t', u, u'); }
    }
  }

  /** What the first block leaves wrong and the rest needs is a taint of the rest. */
  lemma {:induction false} TaintOfRest<M>(c: Config, lost: set<nat>, path: seq<Block>, z: Saved<M>)
    requires Prepared(c) && GoodPath(c, lost, path) && path[1..] != []
    ensures GoodPath(c, lost, path[1..]) && LastOut(path[1..]) == LastOut(path)
    ensures forall q <- NeedBehind(path) ::
              q < c.t.nregs && z.regs(q) == 1 ==> Tainted(c, PathInsns(path[1..]), LastOut(path[1..]), {}, z, q)
  {
  }

  /** The same along every path of blocks, for what the path needs. */
  lemma {:induction false} PathSimulatesIff<M(!new)>(c: Config, lost: set<nat>, path: seq<Block>, mem: M)
    requires Prepared(c) && GoodPath(c, lost, path)
    ensures ReadyPath(c, path) && ArgumentsDie(c, lost, PathInsns(path), LastOut(path))
            <==> SimulatedPath<M>(c, lost, path)
  {
    assert path[0] in path;
    if ReadyPath(c, path) && ArgumentsDie(c, lost, PathInsns(path), LastOut(path)) {
      forall m: Machine<M>, s: Source<M>, z: Saved<M> ensures PathBehaves(m, c, lost, path, s, z) {
        if StandsOnPath(path, s, z) { PathSimulates(m, c, lost, path, s, z); }
      }
    } else {
      var m, s, z := Marking<M>(), ZeroSource(mem), ZeroSaved(mem);
      PathRiskIsExposed(c, lost, path, s, z);
      StaysZero(c, PathInsns(path), s);
      ExposedMisbehaves(c, lost, PathInsns(path), LastOut(path), PathOuts(c, path), s, z);
      assert StandsOnPath(path, s, z);
      assert !PathBehaves(m, c, lost, path, s, z);
    }
  }
}
