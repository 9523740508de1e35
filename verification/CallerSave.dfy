/** Insertion of saves and restores around calls: save_call_clobbered_regs
    with insert_save, insert_restore and mark_referenced_regs, and the proof
    that the rewritten insns see the values the original ones saw. */
module CallerSave {
  import opened Sequences
  import opened SaveAreas

  // ----- insns -----

  /** An expression.  A register operand covers `n` hard registers; `OpX` stands
      for every other code with operands. */
  datatype Expr =
    | RegX(first: nat, n: nat)
    | MemX(addr: Expr)
    | SubregX(inner: Expr, word: nat)
    | OpX(code: nat, args: seq<Expr>)

  /** A destination: whole registers, pc or cc0, or memory. */
  datatype Dest = RegD(first: nat, n: nat) | PcD | MemD(addr: Expr)

  datatype Effect = SetE(dest: Dest, src: Expr) | ClobberE(dest: Dest) | UseE(e: Expr)

  datatype Kind = Plain | Jump | Call | Note

  /** An element of the insn chain.  `live` is live_before as hard registers,
      `usage` the registers of CALL_INSN_FUNCTION_USAGE, `dead` those with a
      REG_DEAD note. */
  datatype Insn = Insn(kind: Kind, pat: seq<Effect>, block: nat, live: set<nat>, usage: set<nat>, dead: set<nat>)

  /** `n` consecutive hard registers. */
  function Regs(first: nat, n: nat): (s: set<nat>)
    ensures forall r: nat :: r in s <==> first <= r < first + n
  {
    if n == 0 then {} else Regs(first, n - 1) + {first + n - 1}
  }

  // ----- mark_referenced_regs -----

  function MarkExpr(e: Expr): set<nat> {
    match e
    case RegX(f, n) => Regs(f, n)
    case MemX(a) => MarkExpr(a)
    case SubregX(i, _) => MarkExpr(i)
    case OpX(_, args) => MarkAll(args)
  }

  function MarkAll(es: seq<Expr>): set<nat> {
    if es == [] then {} else MarkExpr(es[0]) + MarkAll(es[1..])
  }

  function MarkDest(d: Dest): set<nat> {
    match d
    case MemD(a) => MarkExpr(a)
    case _ => {}
  }

  function MarkEffect(f: Effect): set<nat> {
    match f
    case SetE(d, src) => MarkExpr(src) + MarkDest(d)
    case ClobberE(d) => MarkDest(d)
    case UseE(e) => MarkExpr(e)
  }

  /** Registers a pattern references. */
  function Marked(pat: seq<Effect>): set<nat> {
    if pat == [] then {} else MarkEffect(pat[0]) + Marked(pat[1..])
  }

  /** Registers a pattern sets or clobbers (note_stores with mark_set_regs). */
  function Stores(pat: seq<Effect>): set<nat> {
    if pat == [] then {} else
      (match pat[0]
       case SetE(RegD(f, n), _) => Regs(f, n)
       case ClobberE(RegD(f, n)) => Regs(f, n)
       case _ => {}) + Stores(pat[1..])
  }

  predicate IsInsn(i: Insn) { !i.kind.Note? }

  function Reads(i: Insn): set<nat> {
    if !IsInsn(i) then {} else Marked(i.pat) + if i.kind.Call? then i.usage else {}
  }

  // ----- the machine -----

  /** A register is among those of the effect's destination. */
  predicate Covers(f: Effect, r: nat) {
    && !f.UseE? && f.dest.RegD? && f.dest.first <= r < f.dest.first + f.dest.n
  }

  /** The registers an insn changes, whatever the pass collects. */
  predicate Written(i: Insn, r: nat) { IsInsn(i) && exists f <- i.pat :: Covers(f, r) }

  /** note_stores collects exactly the registers that an insn changes. */
  lemma {:induction false} StoresAreWritten(pat: seq<Effect>, r: nat)
    ensures r in Stores(pat) <==> exists f <- pat :: Covers(f, r)
  {
    if pat != [] {
      StoresAreWritten(pat[1..], r);
      assert r in Stores(pat) <==> Covers(pat[0], r) || r in Stores(pat[1..]);
      assert forall f :: f in pat <==> f == pat[0] || f in pat[1..];
    }
  }

  type RegFile = nat -> int

  /** What insns do, left open: operators, loads, and the results of an insn as
      any function of the operand values.  `havoc` is what a call leaves in the
      registers it clobbers. */
  datatype Machine<!M> = Machine(
    op: (nat, seq<seq<int>>) -> seq<int>,
    load: (M, seq<int>) -> seq<int>,
    part: (seq<int>, nat) -> seq<int>,
    result: (Insn, seq<seq<int>>, M, nat) -> int,
    after: (Insn, seq<seq<int>>, M) -> M,
    havoc: (Insn, seq<seq<int>>, M, nat) -> int)

  function Words(f: RegFile, first: nat, n: nat): seq<int> { seq(n, k requires 0 <= k < n => f(first + k)) }

  function Eval<M>(m: Machine<M>, e: Expr, f: RegFile, mem: M): seq<int> {
    match e
    case RegX(r, n) => Words(f, r, n)
    case MemX(a) => m.load(mem, Eval(m, a, f, mem))
    case SubregX(i, w) => m.part(Eval(m, i, f, mem), w)
    case OpX(c, args) => m.op(c, EvalAll(m, args, f, mem))
  }

  function EvalAll<M>(m: Machine<M>, es: seq<Expr>, f: RegFile, mem: M): seq<seq<int>> {
    if es == [] then [] else [Eval(m, es[0], f, mem)] + EvalAll(m, es[1..], f, mem)
  }

  /** The expressions an effect evaluates. */
  function Operands(f: Effect): seq<Expr> {
    match f
    case SetE(MemD(a), src) => [src, a]
    case SetE(_, src) => [src]
    case ClobberE(MemD(a)) => [a]
    case ClobberE(_) => []
    case UseE(e) => [e]
  }

  function AllOperands(pat: seq<Effect>): seq<Expr> {
    if pat == [] then [] else Operands(pat[0]) + AllOperands(pat[1..])
  }

  /** Every register in order, or an empty word where it is not in `s`. */
  function Pick(s: set<nat>, f: RegFile, n: nat): seq<seq<int>> {
    if n == 0 then [] else Pick(s, f, n - 1) + [if n - 1 in s then [f(n - 1)] else []]
  }

  /** Everything an insn reads: operand values and, for a call, the argument registers. */
  function Observed<M>(m: Machine<M>, t: Target, i: Insn, f: RegFile, mem: M): seq<seq<int>> {
    if !IsInsn(i) then [] else
      EvalAll(m, AllOperands(i.pat), f, mem) + if i.kind.Call? then Pick(i.usage, f, t.nregs) else []
  }

  lemma {:induction false} EvalAgrees<M>(m: Machine<M>, e: Expr, f: RegFile, g: RegFile, mem: M)
    requires forall r <- MarkExpr(e) :: f(r) == g(r)
    ensures Eval(m, e, f, mem) == Eval(m, e, g, mem)
    decreases e, 0
  {
    match e
    case RegX(r, n) =>
      forall k | 0 <= k < n ensures Words(f, r, n)[k] == Words(g, r, n)[k] {
        assert r + k in Regs(r, n);
      }
      assert Words(f, r, n) == Words(g, r, n);
    case MemX(a) => EvalAgrees(m, a, f, g, mem);
    case SubregX(i, _) => EvalAgrees(m, i, f, g, mem);
    case OpX(_, args) => EvalAllAgrees(m, args, f, g, mem);
  }

  lemma {:induction false} EvalAllAgrees<M>(m: Machine<M>, es: seq<Expr>, f: RegFile, g: RegFile, mem: M)
    requires forall r <- MarkAll(es) :: f(r) == g(r)
    ensures EvalAll(m, es, f, mem) == EvalAll(m, es, g, mem)
    decreases es, 1
  {
    if es != [] {
      EvalAgrees(m, es[0], f, g, mem);
      EvalAllAgrees(m, es[1..], f, g, mem);
    }
  }

  lemma {:induction false} MarkAllConcat(es: seq<Expr>, ds: seq<Expr>)
    ensures MarkAll(es + ds) == MarkAll(es) + MarkAll(ds)
  {
    if es == [] {
      assert es + ds == ds;
    } else {
      assert (es + ds)[1..] == es[1..] + ds;
      MarkAllConcat(es[1..], ds);
    }
  }

  /** mark_referenced_regs marks exactly the registers whose values a pattern evaluates. */
  lemma {:induction false} MarkedAreOperands(pat: seq<Effect>)
    ensures MarkAll(AllOperands(pat)) == Marked(pat)
  {
    if pat != [] {
      MarkAllConcat(Operands(pat[0]), AllOperands(pat[1..]));
      MarkedAreOperands(pat[1..]);
      EffectOperands(pat[0]);
    }
  }

  lemma EffectOperands(f: Effect)
    ensures MarkAll(Operands(f)) == MarkEffect(f)
  {
    forall e: Expr ensures MarkAll([e]) == MarkExpr(e) {
      assert [e][1..] == [];
    }
    if f.SetE? && f.dest.MemD? { assert [f.src, f.dest.addr][1..] == [f.dest.addr]; }
  }

  lemma {:induction false} PickAgrees(s: set<nat>, f: RegFile, g: RegFile, n: nat)
    requires forall r <- s :: f(r) == g(r)
    ensures Pick(s, f, n) == Pick(s, g, n)
  {
    if n > 0 { PickAgrees(s, f, g, n - 1); }
  }

  /** An insn depends on nothing but the registers it reads. */
  lemma ObservedAgrees<M>(m: Machine<M>, t: Target, i: Insn, f: RegFile, g: RegFile, mem: M)
    requires forall r <- Reads(i) :: f(r) == g(r)
    ensures Observed(m, t, i, f, mem) == Observed(m, t, i, g, mem)
  {
    MarkedAreOperands(i.pat);
    if IsInsn(i) {
      EvalAllAgrees(m, AllOperands(i.pat), f, g, mem);
      if i.kind.Call? { PickAgrees(i.usage, f, g, t.nregs); }
    }
  }

  // ----- running insns -----

  /** Registers and memory of the original insns. */
  datatype Source<!M> = Source(regs: RegFile, mem: M)

  /** The same for the rewritten insns, with the save area. */
  datatype Saved<!M> = Saved(regs: RegFile, mem: M, area: nat -> int)

  /** An element of the rewritten chain. */
  datatype Out = Orig(insn: Insn) | Save(g: Group) | Restore(g: Group)

  /** What the pass is given about the machine, and where registers are saved. */
  datatype Config = Config(t: Target, callUsed: set<nat>, callFixed: set<nat>, mem: SaveMem)

  /** The original meaning: an insn changes the registers it stores and memory. */
  function StepSource<M>(m: Machine<M>, c: Config, i: Insn, s: Source<M>): Source<M> {
    if !IsInsn(i) then s else
      var obs := Observed(m, c.t, i, s.regs, s.mem);
      Source((r: nat) => if Written(i, r) then m.result(i, obs, s.mem, r) else s.regs(r), m.after(i, obs, s.mem))
  }

  /** The real meaning: a call also ruins the registers in `lost`. */
  function StepSaved<M>(m: Machine<M>, c: Config, lost: set<nat>, i: Insn, s: Saved<M>): Saved<M> {
    if !IsInsn(i) then s else
      var obs := Observed(m, c.t, i, s.regs, s.mem);
      s.(regs := (r: nat) => if Written(i, r) then m.result(i, obs, s.mem, r)
                             else if i.kind.Call? && r in lost then m.havoc(i, obs, s.mem, r)
                             else s.regs(r),
         mem := m.after(i, obs, s.mem))
  }

  /** Store the registers of a group in its block. */
  function DoSave<M>(c: Config, g: Group, s: Saved<M>): Saved<M>
    requires g in c.mem
  {
    var a := c.mem[g];
    s.(area := (x: nat) => if a <= x < a + g.words then s.regs(g.first + (x - a)) else s.area(x))
  }

  /** Load the registers of a group from its block. */
  function DoRestore<M>(c: Config, g: Group, s: Saved<M>): Saved<M>
    requires g in c.mem
  {
    var a := c.mem[g];
    s.(regs := (r: nat) => if In(r, g) then s.area(a + (r - g.first)) else s.regs(r))
  }

  predicate Uses(c: Config, o: Out) { o.Orig? || o.g in c.mem }

  function StepOut<M>(m: Machine<M>, c: Config, lost: set<nat>, o: Out, s: Saved<M>): Saved<M>
    requires Uses(c, o)
  {
    match o
    case Orig(i) => StepSaved(m, c, lost, i, s)
    case Save(g) => DoSave(c, g, s)
    case Restore(g) => DoRestore(c, g, s)
  }

  function RunOut<M>(m: Machine<M>, c: Config, lost: set<nat>, os: seq<Out>, s: Saved<M>): Saved<M>
    requires forall o <- os :: Uses(c, o)
  {
    if os == [] then s else RunOut(m, c, lost, os[1..], StepOut(m, c, lost, os[0], s))
  }

  /** What the original insns among `os` read, in order. */
  function TraceOut<M>(m: Machine<M>, c: Config, lost: set<nat>, os: seq<Out>, s: Saved<M>): seq<seq<seq<int>>>
    requires forall o <- os :: Uses(c, o)
  {
    if os == [] then [] else
      (if os[0].Orig? then [Observed(m, c.t, os[0].insn, s.regs, s.mem)] else [])
      + TraceOut(m, c, lost, os[1..], StepOut(m, c, lost, os[0], s))
  }

  function RunSource<M>(m: Machine<M>, c: Config, insns: seq<Insn>, s: Source<M>): Source<M> {
    if insns == [] then s else RunSource(m, c, insns[1..], StepSource(m, c, insns[0], s))
  }

  function TraceSource<M>(m: Machine<M>, c: Config, insns: seq<Insn>, s: Source<M>): seq<seq<seq<int>>> {
    if insns == [] then [] else
      [Observed(m, c.t, insns[0], s.regs, s.mem)] + TraceSource(m, c, insns[1..], StepSource(m, c, insns[0], s))
  }

  lemma {:induction false} RunConcat<M>(m: Machine<M>, c: Config, lost: set<nat>, os: seq<Out>, ps: seq<Out>,
      s: Saved<M>)
    requires (forall o <- os :: Uses(c, o)) && (forall o <- ps :: Uses(c, o))
    ensures RunOut(m, c, lost, os + ps, s) == RunOut(m, c, lost, ps, RunOut(m, c, lost, os, s))
    ensures TraceOut(m, c, lost, os + ps, s)
            == TraceOut(m, c, lost, os, s) + TraceOut(m, c, lost, ps, RunOut(m, c, lost, os, s))
  {
    if os == [] {
      assert os + ps == ps;
    } else {
      assert (os + ps)[1..] == os[1..] + ps && (os + ps)[0] == os[0];
      RunConcat(m, c, lost, os[1..], ps, StepOut(m, c, lost, os[0], s));
    }
  }

  // ----- groups of saves and restores -----

  ghost predicate GroupsIn(c: Config, gs: seq<Group>) { forall g <- gs :: g in c.mem }

  function Covered(gs: seq<Group>): set<nat> {
    if gs == [] then {} else Regs(gs[0].first, gs[0].words) + Covered(gs[1..])
  }

  function Saves(gs: seq<Group>): seq<Out> { if gs == [] then [] else [Save(gs[0])] + Saves(gs[1..]) }

  function Restores(gs: seq<Group>): seq<Out> { if gs == [] then [] else [Restore(gs[0])] + Restores(gs[1..]) }

  lemma {:induction false} SavesUse(c: Config, gs: seq<Group>)
    requires GroupsIn(c, gs)
    ensures (forall o <- Saves(gs) :: Uses(c, o)) && (forall o <- Restores(gs) :: Uses(c, o))
  {
    if gs != [] { SavesUse(c, gs[1..]); }
  }

  /** Saving groups puts every covered register in its own slot and leaves the other slots alone. */
  lemma {:induction false} SavesDo<M>(m: Machine<M>, c: Config, lost: set<nat>, gs: seq<Group>, s: Saved<M>)
    requires Layout(c.t, c.mem) && GroupsIn(c, gs) && forall o <- Saves(gs) :: Uses(c, o)
    ensures var s' := RunOut(m, c, lost, Saves(gs), s);
            Stored(c, Covered(gs), s, s')
    ensures TraceOut(m, c, lost, Saves(gs), s) == []
  {
    if gs != [] {
      var g := gs[0];
      var s1 := DoSave(c, g, s);
      assert Saves(gs)[1..] == Saves(gs[1..]);
      SavesDo(m, c, lost, gs[1..], s1);
      assert Concatenates(c.mem, g);
      forall r: nat | HasSlot(c.mem, r)
        ensures s1.area(Slot(c.mem, r)) == if In(r, g) then s.regs(r) else s.area(Slot(c.mem, r))
      {
        SlotInGroup(c, g, r);
      }
    }
  }

  lemma SlotInGroup(c: Config, g: Group, r: nat)
    requires Layout(c.t, c.mem) && g in c.mem && HasSlot(c.mem, r)
    ensures c.mem[g] <= Slot(c.mem, r) < c.mem[g] + g.words <==> In(r, g)
    ensures In(r, g) ==> Slot(c.mem, r) == c.mem[g] + (r - g.first)
  {
    assert Concatenates(c.mem, g);
    var d := Slot(c.mem, r) - c.mem[g];
    if 0 <= d < g.words {
      var q := g.first + d;
      assert In(q, g);
      assert Slot(c.mem, q) == Slot(c.mem, r);
    }
  }

  /** `z` is `s` with the registers of `regs` loaded from their slots. */
  ghost predicate Loaded<M>(c: Config, regs: set<nat>, s: Saved<M>, z: Saved<M>) {
    && z.area == s.area && z.mem == s.mem && (forall r <- regs :: HasSlot(c.mem, r))
    && forall r: nat :: z.regs(r) == if r in regs && HasSlot(c.mem, r) then s.area(Slot(c.mem, r)) else s.regs(r)
  }

  lemma RestoreLoads<M>(c: Config, g: Group, s: Saved<M>)
    requires Layout(c.t, c.mem) && g in c.mem
    ensures Loaded(c, Regs(g.first, g.words), s, DoRestore(c, g, s))
  {
    assert Concatenates(c.mem, g);
    forall r: nat | In(r, g) ensures HasSlot(c.mem, r) && Slot(c.mem, r) == c.mem[g] + (r - g.first) {
    }
  }

  lemma LoadedTrans<M>(c: Config, p: set<nat>, q: set<nat>, s: Saved<M>, x: Saved<M>, z: Saved<M>)
    requires Loaded(c, p, s, x) && Loaded(c, q, x, z)
    ensures Loaded(c, p + q, s, z)
  {
  }

  /** Restoring groups loads every covered register from its own slot. */
  lemma {:induction false} RestoresDo<M>(m: Machine<M>, c: Config, lost: set<nat>, gs: seq<Group>, s: Saved<M>)
    requires Layout(c.t, c.mem) && GroupsIn(c, gs) && forall o <- Restores(gs) :: Uses(c, o)
    ensures Loaded(c, Covered(gs), s, RunOut(m, c, lost, Restores(gs), s))
    ensures TraceOut(m, c, lost, Restores(gs), s) == []
  {
    if gs != [] {
      var g := gs[0];
      var s1 := DoRestore(c, g, s);
      assert Restores(gs)[1..] == Restores(gs[1..]);
      RestoresDo(m, c, lost, gs[1..], s1);
      RestoreLoads(c, g, s);
      LoadedTrans(c, Regs(g.first, g.words), Covered(gs[1..]), s, s1, RunOut(m, c, lost, Restores(gs[1..]), s1));
    }
  }

  // ----- choosing groups -----

  /** The widest group at `r` of at most `i` words that has a slot and lies in
      `pool`; no words if there is none. */
  function Widest(c: Config, pool: set<nat>, r: nat, i: nat): (n: nat)
    ensures n <= i && (n > 0 ==> Group(r, n) in c.mem && Regs(r, n) <= pool)
    ensures forall k :: n < k <= i ==> !(Group(r, k) in c.mem && Regs(r, k) <= pool)
    ensures i > 0 && HasSlot(c.mem, r) && r in pool ==> n > 0
  {
    if i == 0 then 0
    else if Group(r, i) in c.mem && Regs(r, i) <= pool then i
    else Widest(c, pool, r, i - 1)
  }

  /** The groups chosen for the registers of `want` from `r` up, out of those in
      `pool`; registers before `r` are done. */
  function Groups(c: Config, want: set<nat>, pool: set<nat>, r: nat): (gs: seq<Group>)
    requires forall q <- want :: q in pool && HasSlot(c.mem, q)
    requires c.t.moveMaxWords > 0 || want == {}
    ensures forall g <- gs :: g in c.mem
    decreases c.t.nregs - r
  {
    if r >= c.t.nregs then []
    else if r in want then
      var n := Widest(c, pool, r, c.t.moveMaxWords);
      [Group(r, n)] + Groups(c, want, pool, r + n)
    else Groups(c, want, pool, r + 1)
  }

  lemma {:induction false} GroupsCover(c: Config, want: set<nat>, pool: set<nat>, r: nat)
    requires (forall q <- want :: q in pool && HasSlot(c.mem, q)) && (c.t.moveMaxWords > 0 || want == {})
    ensures Covered(Groups(c, want, pool, r)) <= pool
    ensures forall q <- want :: r <= q < c.t.nregs ==> q in Covered(Groups(c, want, pool, r))
    decreases c.t.nregs - r
  {
    if r < c.t.nregs {
      if r in want {
        var n := Widest(c, pool, r, c.t.moveMaxWords);
        GroupsCover(c, want, pool, r + n);
        var gs := Groups(c, want, pool, r);
        assert gs[0] == Group(r, n) && gs[1..] == Groups(c, want, pool, r + n);
      } else {
        GroupsCover(c, want, pool, r + 1);
      }
    }
  }

  // ----- the pass, as functions -----

  /** Registers the pass wants to save at a call. */
  function Candidates(c: Config, i: Insn): set<nat> {
    i.live * c.callUsed - c.callFixed - Stores(i.pat) - i.usage - i.dead
  }

  /** Registers to restore before an insn. */
  function Referenced(i: Insn, saved: set<nat>): set<nat> {
    if !IsInsn(i) then {} else if i.kind.Jump? then saved else Marked(i.pat) * saved
  }

  /** The pass never meets a register without a save area, where it would abort. */
  ghost predicate Prepared(c: Config) {
    Layout(c.t, c.mem) && Fits(c)
  }

  /** Groups name registers that exist, and a move carries at least a word if there are any. */
  ghost predicate Fits(c: Config) {
    (forall g <- c.mem :: g.first + g.words <= c.t.nregs) && (c.t.moveMaxWords > 0 || c.mem == map[])
  }

  ghost predicate Saveable(c: Config, s: set<nat>) {
    forall r <- s :: r < c.t.nregs && HasSlot(c.mem, r)
  }

  ghost predicate CallSaveable(c: Config, i: Insn) {
    i.kind.Call? ==> Saveable(c, Candidates(c, i))
  }

  /** What happens before insn `i`, and what is in the save area then. */
  function RestoresBefore(c: Config, i: Insn, saved: set<nat>): seq<Group>
    requires Fits(c) && Saveable(c, saved)
  {
    Groups(c, Referenced(i, saved), saved, 0)
  }

  function SavedAfterRestores(c: Config, i: Insn, saved: set<nat>): set<nat>
    requires Fits(c) && Saveable(c, saved)
  {
    saved - Covered(RestoresBefore(c, i, saved))
  }

  function SavesNow(c: Config, i: Insn, saved: set<nat>): seq<Group>
    requires Fits(c) && CallSaveable(c, i)
  {
    var todo := Candidates(c, i) - saved;
    if i.kind.Call? then Groups(c, todo, todo, 0) else []
  }

  function SavesBefore(c: Config, i: Insn, saved: set<nat>): seq<Group>
    requires Fits(c) && Saveable(c, saved) && CallSaveable(c, i)
  {
    SavesNow(c, i, SavedAfterRestores(c, i, saved))
  }

  function SavedAfter(c: Config, i: Insn, saved: set<nat>): set<nat>
    requires Fits(c) && Saveable(c, saved) && CallSaveable(c, i)
  {
    SavedAfterRestores(c, i, saved) + Covered(SavesBefore(c, i, saved))
  }

  /** What is put in front of an insn. */
  function OutsBefore(c: Config, i: Insn, saved: set<nat>): seq<Out>
    requires Fits(c) && Saveable(c, saved) && CallSaveable(c, i)
  {
    Restores(RestoresBefore(c, i, saved)) + Saves(SavesBefore(c, i, saved))
  }

  /** The rewriting of a block from `saved` on. */
  function RewriteBlock(c: Config, saved: set<nat>, insns: seq<Insn>): seq<Out>
    requires Fits(c) && Saveable(c, saved) && forall i <- insns :: CallSaveable(c, i)
    decreases |insns|
  {
    if insns == [] then [] else
      var i := insns[0];
      SavedAfterFacts(c, i, saved);
      var s := SavedAfter(c, i, saved);
      var here := OutsBefore(c, i, saved);
      if |insns| == 1 then
        var last := Groups(c, s, s, 0);
        here + if i.kind.Jump? then Restores(last) + [Orig(i)] else [Orig(i)] + Restores(Reverse(last))
      else here + [Orig(i)] + RewriteBlock(c, s, insns[1..])
  }

  lemma SavedAfterFacts(c: Config, i: Insn, saved: set<nat>)
    requires Fits(c) && Saveable(c, saved) && CallSaveable(c, i)
    ensures var s1 := SavedAfterRestores(c, i, saved);
            && s1 <= saved && s1 * Referenced(i, saved) == {}
            && SavedAfter(c, i, saved) == (if i.kind.Call? then s1 + Candidates(c, i) else s1)
            && Covered(RestoresBefore(c, i, saved)) <= saved
    ensures Saveable(c, SavedAfter(c, i, saved))
  {
    GroupsCover(c, Referenced(i, saved), saved, 0);
    if i.kind.Call? {
      var todo := Candidates(c, i) - SavedAfterRestores(c, i, saved);
      GroupsCover(c, todo, todo, 0);
      assert Covered(Groups(c, todo, todo, 0)) == todo;
    }
  }

  // ----- what the pass relies on -----

  /** `r` is live before these insns of a block whose live-out set is `out`. */
  predicate LiveAt(insns: seq<Insn>, out: set<nat>, r: nat) {
    if insns == [] then r in out
    else r in Reads(insns[0]) || (!Written(insns[0], r) && LiveAt(insns[1..], out, r))
  }

  /** More live registers at the end, more live registers before. */
  lemma {:induction false} LiveMore(insns: seq<Insn>, need: set<nat>, out: set<nat>, r: nat)
    requires need <= out && LiveAt(insns, need, r)
    ensures LiveAt(insns, out, r)
  {
    if insns != [] && r !in Reads(insns[0]) { LiveMore(insns[1..], need, out, r); }
  }

  /** What flow analysis says at a call: which registers are live before it, and
      which of those that its pattern references die there. */
  ghost predicate LivenessAt(i: Insn, rest: seq<Insn>, out: set<nat>) {
    && (forall r: nat :: r in i.live <==> r in Reads(i) || (!Written(i, r) && LiveAt(rest, out, r)))
    && (forall r <- i.dead :: !LiveAt(rest, out, r))
    && (forall r <- Marked(i.pat) :: Written(i, r) || LiveAt(rest, out, r) || r in i.dead)
  }

  /** The chain carries correct liveness at every call. */
  ghost predicate Liveness(insns: seq<Insn>, out: set<nat>) {
    insns != [] ==>
      && (insns[0].kind.Call? ==> LivenessAt(insns[0], insns[1..], out))
      && Liveness(insns[1..], out)
  }

  /** A call ruins none of its argument registers, nor a register that is never
      saved, that is needed behind it. */
  ghost predicate ArgumentsDieAt(c: Config, lost: set<nat>, i: Insn, rest: seq<Insn>, need: set<nat>) {
    forall r <- lost * (i.usage + c.callFixed) :: Written(i, r) || !LiveAt(rest, need, r)
  }

  ghost predicate ArgumentsDie(c: Config, lost: set<nat>, insns: seq<Insn>, need: set<nat>) {
    insns != [] ==>
      && (insns[0].kind.Call? ==> ArgumentsDieAt(c, lost, insns[0], insns[1..], need))
      && ArgumentsDie(c, lost, insns[1..], need)
  }

  /** Calls ruin call-used registers, and of the registers live at the end some
      are needed. */
  ghost predicate Life(c: Config, lost: set<nat>, insns: seq<Insn>, out: set<nat>, need: set<nat>) {
    lost <= c.callUsed && need <= out && Liveness(insns, out) && ArgumentsDie(c, lost, insns, need)
  }

  /** At a call the pass saves exactly the call-used registers that are live
      behind it, but for those the call sets, the fixed ones and its arguments. */
  lemma CandidatesIff(c: Config, i: Insn, rest: seq<Insn>, out: set<nat>, r: nat)
    requires i.kind.Call? && LivenessAt(i, rest, out)
    ensures r in Candidates(c, i) <==>
            LiveAt(rest, out, r) && !Written(i, r) && r in c.callUsed && r !in c.callFixed && r !in i.usage
  {
    StoresAreWritten(i.pat, r);
  }

  /** From liveness the pass picks the right registers: every register that a
      call ruins and that is needed behind it, and only live ones. */
  lemma {:induction false} CandidatesAreLive(c: Config, lost: set<nat>, i: Insn, rest: seq<Insn>, out: set<nat>,
                                             need: set<nat>)
    requires i.kind.Call? && LivenessAt(i, rest, out) && ArgumentsDieAt(c, lost, i, rest, need)
    requires lost <= c.callUsed && need <= out
    ensures forall r <- lost :: !Written(i, r) && LiveAt(rest, need, r) ==> r in Candidates(c, i)
    ensures forall r <- Candidates(c, i) :: LiveAt(rest, out, r) && !Written(i, r)
  {
    forall r | r in Candidates(c, i) ensures LiveAt(rest, out, r) && !Written(i, r) {
      CandidatesIff(c, i, rest, out, r);
    }
    forall r | r in lost && !Written(i, r) && LiveAt(rest, need, r) ensures r in Candidates(c, i) {
      CandidatesIff(c, i, rest, out, r);
      LiveMore(rest, need, out, r);
      assert r !in lost * (i.usage + c.callFixed);
    }
  }

  /** Every call finds its argument registers outside the save area, though
      mark_referenced_regs does not look at them. */
  predicate ArgumentsReady(c: Config, saved: set<nat>, insns: seq<Insn>)
    requires Fits(c) && Saveable(c, saved) && forall i <- insns :: CallSaveable(c, i)
    decreases |insns|
  {
    insns != [] ==>
      var i := insns[0];
      SavedAfterFacts(c, i, saved);
      && (i.kind.Call? ==> i.usage * SavedAfterRestores(c, i, saved) == {})
      && ArgumentsReady(c, SavedAfter(c, i, saved), insns[1..])
  }

  /** Before anything else happens to `r` in the block, a pattern reads it or the block jumps away. */
  predicate NextIsReference(insns: seq<Insn>, r: nat) {
    insns != [] ==>
      var i := insns[0];
      || (IsInsn(i) && (i.kind.Jump? || r in Marked(i.pat)))
      || (!Written(i, r) && r !in Reads(i) && NextIsReference(insns[1..], r))
  }

  ghost predicate ReferencedNext(c: Config, insns: seq<Insn>) {
    insns != [] ==>
      && (insns[0].kind.Call? ==> forall r <- Candidates(c, insns[0]) :: NextIsReference(insns[1..], r))
      && ReferencedNext(c, insns[1..])
  }

  /** It is enough that a pattern references every candidate next. */
  lemma {:induction false} ReferencedNextIsReady(c: Config, saved: set<nat>, insns: seq<Insn>)
    requires Fits(c) && Saveable(c, saved) && forall i <- insns :: CallSaveable(c, i)
    requires ReferencedNext(c, insns) && forall r <- saved :: NextIsReference(insns, r)
    ensures ArgumentsReady(c, saved, insns)
    decreases |insns|
  {
    if insns != [] {
      var i := insns[0];
      SavedAfterFacts(c, i, saved);
      forall r | r in SavedAfterRestores(c, i, saved) ensures r !in Reads(i) && NextIsReference(insns[1..], r) {
        assert r !in Referenced(i, saved);
      }
      ReferencedNextIsReady(c, SavedAfter(c, i, saved), insns[1..]);
    }
  }

  // ----- the rewritten block sees the same values -----

  /** The real state stands for the original one before `insns`: memory agrees
      and every register whose value is needed is in its slot or in place; what is
      saved is live. */
  ghost predicate Stands<M>(c: Config, insns: seq<Insn>, out: set<nat>, need: set<nat>, saved: set<nat>,
                            s: Source<M>, z: Saved<M>) {
    && Saveable(c, saved) && s.mem == z.mem
    && (forall r <- saved :: LiveAt(insns, out, r))
    && (forall r: nat :: LiveAt(insns, need, r) ==>
          if r in saved then z.area(Slot(c.mem, r)) == s.regs(r) else z.regs(r) == s.regs(r))
  }

  lemma RestoreKeepsStanding<M>(m: Machine<M>, c: Config, lost: set<nat>, insns: seq<Insn>, out: set<nat>,
                                need: set<nat>, saved: set<nat>, s: Source<M>, z: Saved<M>, gs: seq<Group>)
    requires Prepared(c) && Stands(c, insns, out, need, saved, s, z) && GroupsIn(c, gs) && Covered(gs) <= saved
    requires forall o <- Restores(gs) :: Uses(c, o)
    ensures Stands(c, insns, out, need, saved - Covered(gs), s, RunOut(m, c, lost, Restores(gs), z))
  {
    RestoresDo(m, c, lost, gs, z);
  }

  /** `z'` is `z` with the registers of `regs` stored in their slots. */
  ghost predicate Stored<M>(c: Config, regs: set<nat>, z: Saved<M>, z': Saved<M>) {
    && z'.regs == z.regs && z'.mem == z.mem
    && forall r: nat :: HasSlot(c.mem, r) ==>
         z'.area(Slot(c.mem, r)) == if r in regs then z.regs(r) else z.area(Slot(c.mem, r))
  }

  lemma SaveKeepsStanding<M>(c: Config, insns: seq<Insn>, out: set<nat>, need: set<nat>, saved: set<nat>,
                             s: Source<M>, z: Saved<M>, z': Saved<M>, regs: set<nat>)
    requires Stands(c, insns, out, need, saved, s, z) && Stored(c, regs, z, z') && regs !! saved
    ensures Stands(c, insns, out, need, saved, s, z')
  {
    forall r: nat | LiveAt(insns, need, r)
      ensures if r in saved then z'.area(Slot(c.mem, r)) == s.regs(r) else z'.regs(r) == s.regs(r)
    {
      assert r in saved ==> r !in regs && HasSlot(c.mem, r);
    }
  }

  /** Executing one insn, with nothing it reads in the save area. */
  lemma InsnKeepsStanding<M>(m: Machine<M>, c: Config, lost: set<nat>, insns: seq<Insn>, out: set<nat>,
                             need: set<nat>, saved: set<nat>, saved': set<nat>, s: Source<M>, z: Saved<M>)
    requires Prepared(c) && insns != [] && Life(c, lost, insns, out, need)
    requires Stands(c, insns, out, need, saved, s, z) && saved * Referenced(insns[0], saved) == {}
    requires insns[0].kind.Call? ==> insns[0].usage * saved == {}
    requires saved' == (if insns[0].kind.Call? then saved + Candidates(c, insns[0]) else saved)
    requires forall r <- saved' - saved :: HasSlot(c.mem, r) && z.area(Slot(c.mem, r)) == z.regs(r)
    ensures var i := insns[0];
            && Observed(m, c.t, i, z.regs, z.mem) == Observed(m, c.t, i, s.regs, s.mem)
            && Stands(c, insns[1..], out, need, saved', StepSource(m, c, i, s), StepSaved(m, c, lost, i, z))
  {
    var i, rest := insns[0], insns[1..];
    forall r | r in saved ensures r !in Reads(i) && !Written(i, r) && LiveAt(rest, out, r) {
      assert LiveAt(insns, out, r) && r !in Referenced(i, saved);
      assert i.kind.Call? ==> r !in i.usage;
    }
    forall r | r in Reads(i) ensures z.regs(r) == s.regs(r) {
      assert LiveAt(insns, need, r);
    }
    if i.kind.Call? { CandidatesAreLive(c, lost, i, rest, out, need); }
    ObservedAgrees(m, c.t, i, z.regs, s.regs, z.mem);
    var s', z' := StepSource(m, c, i, s), StepSaved(m, c, lost, i, z);
    forall r: nat | LiveAt(rest, need, r)
      ensures if r in saved' then HasSlot(c.mem, r) && z'.area(Slot(c.mem, r)) == s'.regs(r)
          else z'.regs(r) == s'.regs(r)
    {
      if !Written(i, r) { assert LiveAt(insns, need, r); }
    }
  }

  /** The saves and restores before an insn keep the real state standing. */
  lemma BeforeKeepsStanding<M>(m: Machine<M>, c: Config, lost: set<nat>, insns: seq<Insn>, out: set<nat>,
                               need: set<nat>, saved: set<nat>, s: Source<M>, z: Saved<M>) returns (z': Saved<M>)
    requires Prepared(c) && insns != [] && CallSaveable(c, insns[0]) && Stands(c, insns, out, need, saved, s, z)
    ensures var i := insns[0];
            var os := OutsBefore(c, i, saved);
            var s1 := SavedAfterRestores(c, i, saved);
            && (forall o <- os :: Uses(c, o))
            && z' == RunOut(m, c, lost, os, z) && TraceOut(m, c, lost, os, z) == []
            && Stands(c, insns, out, need, s1, s, z')
            && forall r <- SavedAfter(c, i, saved) - s1 :: HasSlot(c.mem, r) && z'.area(Slot(c.mem, r)) == z'.regs(r)
  {
    var i := insns[0];
    var s1 := SavedAfterRestores(c, i, saved);
    var gs, hs := RestoresBefore(c, i, saved), SavesBefore(c, i, saved);
    SavedAfterFacts(c, i, saved);
    SavesUse(c, gs);
    SavesUse(c, hs);
    RestoreKeepsStanding(m, c, lost, insns, out, need, saved, s, z, gs);
    RestoresDo(m, c, lost, gs, z);
    var z1 := RunOut(m, c, lost, Restores(gs), z);
    assert Covered(hs) !! s1 by {
      if i.kind.Call? { GroupsCover(c, Candidates(c, i) - s1, Candidates(c, i) - s1, 0); }
    }
    SavesDo(m, c, lost, hs, z1);
    SaveKeepsStanding(c, insns, out, need, s1, s, z1, RunOut(m, c, lost, Saves(hs), z1), Covered(hs));
    RunConcat(m, c, lost, Restores(gs), Saves(hs), z);
    z' := RunOut(m, c, lost, Saves(hs), z1);
  }

  /** Restoring everything at the end of a block. */
  lemma EndKeepsStanding<M>(m: Machine<M>, c: Config, lost: set<nat>, out: set<nat>, need: set<nat>, saved: set<nat>,
                            s: Source<M>, z: Saved<M>, gs: seq<Group>)
    requires Prepared(c) && Stands(c, [], out, need, saved, s, z) && GroupsIn(c, gs) && Covered(gs) == saved
    ensures (forall o <- Restores(gs) :: Uses(c, o)) && TraceOut(m, c, lost, Restores(gs), z) == []
    ensures Stands(c, [], out, need, {}, s, RunOut(m, c, lost, Restores(gs), z))
  {
    SavesUse(c, gs);
    RestoresDo(m, c, lost, gs, z);
    RestoreKeepsStanding(m, c, lost, [], out, need, saved, s, z, gs);
    assert saved - Covered(gs) == {};
  }

  lemma {:induction false} ReverseCovers(gs: seq<Group>)
    ensures Covered(Reverse(gs)) == Covered(gs) && forall g :: g in Reverse(gs) <==> g in gs
  {
    if gs != [] {
      ReverseCovers(gs[1..]);
      CoveredConcat(Reverse(gs[1..]), [gs[0]]);
      assert [gs[0]][1..] == [];
    }
  }

  lemma {:induction false} CoveredConcat(gs: seq<Group>, hs: seq<Group>)
    ensures Covered(gs + hs) == Covered(gs) + Covered(hs)
  {
    if gs == [] {
      assert gs + hs == hs;
    } else {
      assert (gs + hs)[1..] == gs[1..] + hs;
      CoveredConcat(gs[1..], hs);
    }
  }

  ghost predicate SameBehaviour<M>(m: Machine<M>, c: Config, lost: set<nat>, insns: seq<Insn>, need: set<nat>,
                                   os: seq<Out>, s: Source<M>, z: Saved<M>) {
    && (forall o <- os :: Uses(c, o))
    && TraceOut(m, c, lost, os, z) == TraceSource(m, c, insns, s)
    && Stands(c, [], need, need, {}, RunSource(m, c, insns, s), RunOut(m, c, lost, os, z))
  }

  lemma LastInsn<M>(m: Machine<M>, c: Config, lost: set<nat>, i: Insn, out: set<nat>, need: set<nat>,
                    saved: set<nat>, s: Source<M>, z: Saved<M>)
    requires Prepared(c) && Life(c, lost, [i], out, need) && CallSaveable(c, i)
    requires Stands(c, [i], out, need, saved, s, z)
    requires i.kind.Call? ==> i.usage * SavedAfterRestores(c, i, saved) == {}
    ensures SameBehaviour(m, c, lost, [i], need, RewriteBlock(c, saved, [i]), s, z)
  {
    var insns := [i];
    var z1 := BeforeKeepsStanding(m, c, lost, insns, out, need, saved, s, z);
    SavedAfterFacts(c, i, saved);
    var s1, s2 := SavedAfterRestores(c, i, saved), SavedAfter(c, i, saved);
    assert s1 * Referenced(i, s1) == {};
    InsnKeepsStanding(m, c, lost, insns, out, need, s1, s2, s, z1);
    var here := OutsBefore(c, i, saved);
    var last := Groups(c, s2, s2, 0);
    GroupsCover(c, s2, s2, 0);
    assert Covered(last) == s2;
    var s', z2 := StepSource(m, c, i, s), StepSaved(m, c, lost, i, z1);
    assert insns[1..] == [];
    assert RunSource(m, c, insns, s) == s';
    assert TraceSource(m, c, insns, s) == [Observed(m, c.t, i, s.regs, s.mem)];
    RunOne(m, c, lost, i, z1);
    if i.kind.Jump? {
      assert s2 == {};
      NoGroups(c, 0);
      assert Restores(last) + [Orig(i)] == [Orig(i)];
      RunConcat(m, c, lost, here, [Orig(i)], z);
    } else {
      ReverseCovers(last);
      EndKeepsStanding(m, c, lost, out, need, s2, s', z2, Reverse(last));
      RunConcat(m, c, lost, [Orig(i)], Restores(Reverse(last)), z1);
      RunConcat(m, c, lost, here, [Orig(i)] + Restores(Reverse(last)), z);
    }
  }

  lemma RunOne<M>(m: Machine<M>, c: Config, lost: set<nat>, i: Insn, z: Saved<M>)
    ensures RunOut(m, c, lost, [Orig(i)], z) == StepSaved(m, c, lost, i, z)
    ensures TraceOut(m, c, lost, [Orig(i)], z) == [Observed(m, c.t, i, z.regs, z.mem)]
  {
    assert [Orig(i)][1..] == [];
  }

  lemma {:induction false} NoGroups(c: Config, r: nat)
    ensures Groups(c, {}, {}, r) == []
    decreases c.t.nregs - r
  {
    if r < c.t.nregs { NoGroups(c, r + 1); }
  }

  /** In a block with correct liveness whose calls find their arguments in place
      and ruin none that is needed again, every insn reads in the rewritten block
      what it read in the original one; memory and the needed live-out registers
      end up the same, and nothing is left in the save area. */
  lemma {:induction false} BlockSimulates<M>(m: Machine<M>, c: Config, lost: set<nat>, insns: seq<Insn>, out: set<nat>,
                                             need: set<nat>, saved: set<nat>, s: Source<M>, z: Saved<M>)
    requires Prepared(c) && insns != [] && Life(c, lost, insns, out, need) && Stands(c, insns, out, need, saved, s, z)
    requires (forall i <- insns :: CallSaveable(c, i)) && ArgumentsReady(c, saved, insns)
    ensures SameBehaviour(m, c, lost, insns, need, RewriteBlock(c, saved, insns), s, z)
    decreases |insns|
  {
    var i := insns[0];
    if |insns| == 1 {
      assert insns == [i];
      LastInsn(m, c, lost, i, out, need, saved, s, z);
    } else {
      var z1 := BeforeKeepsStanding(m, c, lost, insns, out, need, saved, s, z);
      SavedAfterFacts(c, i, saved);
      var s1, s2 := SavedAfterRestores(c, i, saved), SavedAfter(c, i, saved);
      assert s1 * Referenced(i, s1) == {};
      InsnKeepsStanding(m, c, lost, insns, out, need, s1, s2, s, z1);
      var s', z2 := StepSource(m, c, i, s), StepSaved(m, c, lost, i, z1);
      BlockSimulates(m, c, lost, insns[1..], out, need, s2, s', z2);
      var here := OutsBefore(c, i, saved);
      RunAround(m, c, lost, here, i, RewriteBlock(c, s2, insns[1..]), z);
    }
  }

  /** An insn with what comes before it and after it. */
  lemma {:induction false} RunAround<M>(m: Machine<M>, c: Config, lost: set<nat>, here: seq<Out>, i: Insn,
      rest: seq<Out>, z: Saved<M>)
    requires (forall o <- here :: Uses(c, o)) && (forall o <- rest :: Uses(c, o))
    ensures forall o <- here + [Orig(i)] + rest :: Uses(c, o)
    ensures var (os, z1) := (here + [Orig(i)] + rest, RunOut(m, c, lost, here, z));
            var z2 := StepSaved(m, c, lost, i, z1);
            && RunOut(m, c, lost, os, z) == RunOut(m, c, lost, rest, z2)
            && TraceOut(m, c, lost, os, z)
               == TraceOut(m, c, lost, here, z)
                  + ([Observed(m, c.t, i, z1.regs, z1.mem)] + TraceOut(m, c, lost, rest, z2))
  {
    var z1 := RunOut(m, c, lost, here, z);
    RunOne(m, c, lost, i, z1);
    RunConcat(m, c, lost, [Orig(i)], rest, z1);
    RunConcat(m, c, lost, here, [Orig(i)] + rest, z);
    assert here + [Orig(i)] + rest == here + ([Orig(i)] + rest);
  }

  // ----- runs through many blocks -----

  /** A basic block with its live-out registers. */
  datatype Block = Block(insns: seq<Insn>, out: set<nat>)

  ghost predicate GoodBlock(c: Config, b: Block) {
    b.insns != [] && Liveness(b.insns, b.out) && SaveableBlock(c, b)
  }

  ghost predicate ReadyBlock(c: Config, b: Block)
    requires Fits(c) && SaveableBlock(c, b)
  {
    ArgumentsReady(c, {}, b.insns)
  }

  ghost predicate SaveableBlock(c: Config, b: Block) { forall i <- b.insns :: CallSaveable(c, i) }

  /** Control may pass from `b` to `d`: what `d` needs is live out of `b`. */
  ghost predicate MayFollow(b: Block, d: Block) {
    forall r: nat :: LiveAt(d.insns, d.out, r) ==> r in b.out
  }

  ghost predicate IsPath(path: seq<Block>) {
    |path| > 1 ==> MayFollow(path[0], path[1]) && IsPath(path[1..])
  }

  function PathInsns(path: seq<Block>): seq<Insn> {
    if path == [] then [] else path[0].insns + PathInsns(path[1..])
  }

  function PathOuts(c: Config, path: seq<Block>): seq<Out>
    requires Fits(c) && forall b <- path :: SaveableBlock(c, b)
  {
    if path == [] then [] else
      assert SaveableBlock(c, path[0]);
      RewriteBlock(c, {}, path[0].insns) + PathOuts(c, path[1..])
  }

  lemma {:induction false} SourceConcat<M>(m: Machine<M>, c: Config, a: seq<Insn>, b: seq<Insn>, s: Source<M>)
    ensures RunSource(m, c, a + b, s) == RunSource(m, c, b, RunSource(m, c, a, s))
    ensures TraceSource(m, c, a + b, s) == TraceSource(m, c, a, s) + TraceSource(m, c, b, RunSource(m, c, a, s))
  {
    if a == [] {
      assert a + b == b;
    } else {
      assert (a + b)[1..] == a[1..] + b;
      SourceConcat(m, c, a[1..], b, StepSource(m, c, a[0], s));
    }
  }

  /** The registers live before `insns`. */
  function LiveIn(insns: seq<Insn>, out: set<nat>): (s: set<nat>)
    ensures forall r: nat :: r in s <==> LiveAt(insns, out, r)
  {
    if insns == [] then out else Reads(insns[0]) + set r <- LiveIn(insns[1..], out) | !Written(insns[0], r)
  }

  lemma {:induction false} LiveConcat(a: seq<Insn>, b: seq<Insn>, out: set<nat>, r: nat)
    ensures LiveAt(a + b, out, r) <==> LiveAt(a, LiveIn(b, out), r)
  {
    if a == [] {
      assert a + b == b;
    } else {
      assert (a + b)[0] == a[0] && (a + b)[1..] == a[1..] + b;
      LiveConcat(a[1..], b, out, r);
    }
  }

  /** On a path only what later blocks of the path need has to be right. */
  lemma {:induction false} DieConcat(c: Config, lost: set<nat>, a: seq<Insn>, b: seq<Insn>, out: set<nat>)
    ensures ArgumentsDie(c, lost, a + b, out)
            <==> ArgumentsDie(c, lost, a, LiveIn(b, out)) && ArgumentsDie(c, lost, b, out)
  {
    if a == [] {
      assert a + b == b;
    } else {
      assert (a + b)[0] == a[0] && (a + b)[1..] == a[1..] + b;
      DieConcat(c, lost, a[1..], b, out);
      forall r: nat ensures LiveAt(a[1..] + b, out, r) <==> LiveAt(a[1..], LiveIn(b, out), r) {
        LiveConcat(a[1..], b, out, r);
      }
    }
  }

  function LastOut(path: seq<Block>): set<nat>
    requires path != []
  {
    path[|path| - 1].out
  }

  /** What is needed along a path is live at its start. */
  lemma {:induction false} PathNeedsLive(path: seq<Block>, r: nat)
    requires path != [] && IsPath(path) && LiveAt(PathInsns(path), LastOut(path), r)
    ensures LiveAt(path[0].insns, path[0].out, r)
  {
    var b, rest := path[0], path[1..];
    if rest == [] {
      assert b.insns + [] == b.insns && PathInsns(rest) == [];
    } else {
      assert LastOut(rest) == LastOut(path) && rest[0] == path[1];
      LiveConcat(b.insns, PathInsns(rest), LastOut(path), r);
      forall q | q in LiveIn(PathInsns(rest), LastOut(rest)) ensures q in b.out { PathNeedsLive(rest, q); }
      LiveMore(b.insns, LiveIn(PathInsns(rest), LastOut(rest)), b.out, r);
    }
  }

  /** The real state stands for the original one at the start of a path. */
  ghost predicate StandsOnPath<M>(path: seq<Block>, s: Source<M>, z: Saved<M>)
    requires path != []
  {
    s.mem == z.mem && forall r: nat :: LiveAt(PathInsns(path), LastOut(path), r) ==> z.regs(r) == s.regs(r)
  }

  /** Along every path of blocks whose calls find their arguments in place and
      ruin none that the path needs again, the rewritten code reads what the
      original code reads, and keeps memory and the live-out registers. */
  lemma {:induction false} PathSimulates<M>(m: Machine<M>, c: Config, lost: set<nat>, path: seq<Block>,
                                            s: Source<M>, z: Saved<M>)
    requires Prepared(c) && path != [] && IsPath(path) && lost <= c.callUsed
    requires forall b <- path :: GoodBlock(c, b) && SaveableBlock(c, b) && ReadyBlock(c, b)
    requires ArgumentsDie(c, lost, PathInsns(path), LastOut(path)) && StandsOnPath(path, s, z)
    ensures SameBehaviour(m, c, lost, PathInsns(path), LastOut(path), PathOuts(c, path), s, z)
    decreases |path|
  {
    var b, rest := path[0], path[1..];
    assert b in path;
    var need := NeedBehind(path);
    FirstBlockSimulates(m, c, lost, path, s, z);
    var os := RewriteBlock(c, {}, b.insns);
    var s', z' := RunSource(m, c, b.insns, s), RunOut(m, c, lost, os, z);
    if rest == [] {
      assert PathInsns(rest) == [] && PathOuts(c, rest) == [];
      assert b.insns + [] == b.insns && os + [] == os;
      assert PathInsns(path) == b.insns && PathOuts(c, path) == os;
    } else {
      DieConcat(c, lost, b.insns, PathInsns(rest), LastOut(path));
      assert LastOut(rest) == LastOut(path);
      assert StandsOnPath(rest, s', z') by {
        forall r: nat | LiveAt(PathInsns(rest), LastOut(rest), r) ensures z'.regs(r) == s'.regs(r) {
          assert LiveAt([], need, r);
        }
      }
      PathSimulates(m, c, lost, rest, s', z');
      SourceConcat(m, c, b.insns, PathInsns(rest), s);
      RunConcat(m, c, lost, os, PathOuts(c, rest), z);
    }
  }

  /** What the rest of a path needs of its first block. */
  function NeedBehind(path: seq<Block>): set<nat>
    requires path != []
  {
    LiveIn(PathInsns(path[1..]), LastOut(path))
  }

  lemma {:induction false} NeedIsLive(path: seq<Block>)
    requires path != [] && IsPath(path)
    ensures NeedBehind(path) <= path[0].out
    ensures forall r: nat :: LiveAt(path[0].insns, NeedBehind(path), r) <==> LiveAt(PathInsns(path), LastOut(path), r)
  {
    var b, rest := path[0], path[1..];
    forall r: nat
      ensures LiveAt(b.insns, NeedBehind(path), r) <==> LiveAt(PathInsns(path), LastOut(path), r)
    {
      LiveConcat(b.insns, PathInsns(rest), LastOut(path), r);
    }
    if rest != [] {
      assert LastOut(rest) == LastOut(path) && rest[0] == path[1];
      forall q | q in NeedBehind(path) ensures q in b.out { PathNeedsLive(rest, q); }
    } else {
      assert PathInsns(rest) == [];
    }
  }

  lemma {:induction false} FirstBlockSimulates<M>(m: Machine<M>, c: Config, lost: set<nat>, path: seq<Block>,
                                                  s: Source<M>, z: Saved<M>)
    requires Prepared(c) && path != [] && IsPath(path) && lost <= c.callUsed
    requires GoodBlock(c, path[0]) && SaveableBlock(c, path[0]) && ReadyBlock(c, path[0])
    requires ArgumentsDie(c, lost, PathInsns(path), LastOut(path)) && StandsOnPath(path, s, z)
    ensures SameBehaviour(m, c, lost, path[0].insns, NeedBehind(path), RewriteBlock(c, {}, path[0].insns), s, z)
  {
    var b := path[0];
    NeedIsLive(path);
    DieConcat(c, lost, b.insns, PathInsns(path[1..]), LastOut(path));
    BlockSimulates(m, c, lost, b.insns, b.out, NeedBehind(path), {}, s, z);
  }

  // ----- where the pass goes wrong -----

  /** A target with one register, which calls ruin. */
  ghost predicate OneRegister(c: Config) {
    c.t.nregs == 1 && c.callUsed == {0} && c.callFixed == {} && Prepared(c) && HasSlot(c.mem, 0)
  }

  /** Two calls across which the register is live; the second takes it as its argument. */
  ghost predicate TwoCalls(c: Config, i: Insn, j: Insn) {
    && OneRegister(c)
    && i == Insn(Call, [], i.block, {0}, {}, {}) && j == Insn(Call, [], j.block, {0}, {0}, {})
  }

  lemma {:induction false} OneGroup(c: Config, n: nat)
    requires c.t.nregs == 1 && HasSlot(c.mem, 0) && n > 0
    ensures Widest(c, {0}, 0, n) == 1
  {
    if n > 1 {
      OneGroup(c, n - 1);
      assert 1 in Regs(0, n);
    } else {
      assert Regs(0, 1) <= {0};
    }
  }

  lemma {:induction false} OneGroupOut(g: Group)
    ensures Reverse([g]) == [g] && Restores([g]) == [Restore(g)] && Saves([g]) == [Save(g)]
    ensures Covered([g]) == Regs(g.first, g.words)
  {
    var gs := [g];
    assert gs[1..] == [];
    assert Reverse(gs) == Reverse(gs[1..]) + [gs[0]];
    assert Restores(gs) == [Restore(gs[0])] + Restores(gs[1..]);
    assert Saves(gs) == [Save(gs[0])] + Saves(gs[1..]);
    assert Covered(gs) == Regs(gs[0].first, gs[0].words) + Covered(gs[1..]);
  }

  lemma {:induction false} GroupsOfOne(c: Config)
    requires c.t.nregs == 1 && HasSlot(c.mem, 0) && Fits(c)
    ensures Groups(c, {0}, {0}, 0) == [Group(0, 1)] && Groups(c, {}, {}, 0) == [] && Groups(c, {}, {0}, 0) == []
  {
    OneGroup(c, c.t.moveMaxWords);
    assert Groups(c, {0}, {0}, 1) == [] && Groups(c, {}, {}, 1) == [] && Groups(c, {}, {0}, 1) == [];
  }

  lemma {:induction false} TwoCallsRewritten(c: Config, i: Insn, j: Insn)
    requires TwoCalls(c, i, j)
    ensures CallSaveable(c, i) && CallSaveable(c, j)
    ensures RewriteBlock(c, {}, [i, j]) == [Save(Group(0, 1)), Orig(i), Orig(j), Restore(Group(0, 1))]
  {
    var g := Group(0, 1);
    GroupsOfOne(c);
    assert Candidates(c, i) == {0} && Candidates(c, j) == {};
    assert Referenced(i, {}) == {} && Referenced(j, {0}) == {};
    assert SavedAfterRestores(c, i, {}) == {} && {0} - {} == {0};
    assert SavesBefore(c, i, {}) == [g];
    OneGroupOut(g);
    assert Covered([g]) == {0};
    assert SavedAfter(c, i, {}) == {0};
    assert SavedAfterRestores(c, j, {0}) == {0};
    assert {} - {0} == {};
    assert SavesBefore(c, j, {0}) == [];
    assert SavedAfter(c, j, {0}) == {0};
    assert RewriteBlock(c, {0}, [j]) == [Orig(j), Restore(g)];
    assert [i, j][1..] == [j];
  }

  lemma {:induction false} TwoCallsLive(i: Insn, j: Insn, lost: set<nat>, c: Config)
    requires i.kind.Call? && i.pat == [] && i.live == {0} && i.usage <= {0} && i.dead == {}
    requires j.kind.Call? && j.pat == [] && j.live == {0} && j.usage == {0} && j.dead <= {0}
    ensures Liveness([i, j], {})
    ensures i.usage == {} && c.callFixed == {} ==> ArgumentsDie(c, lost, [i, j], {})
    ensures i.usage == {0} && lost == {0} ==> !ArgumentsDie(c, lost, [i, j], {})
  {
    assert [i, j][1..] == [j] && [j][1..] == [];
    assert forall r: nat :: !LiveAt([], {}, r);
    forall r: nat ensures LiveAt([j], {}, r) <==> r == 0 {
    }
    assert LivenessAt(j, [], {}) && LivenessAt(i, [j], {});
    assert Liveness([j], {});
    if i.usage == {} && c.callFixed == {} {
      assert ArgumentsDie(c, lost, [j], {});
    }
    if i.usage == {0} && lost == {0} {
      assert 0 in lost * (i.usage + c.callFixed) && !Written(i, 0);
    }
  }

  /** A register saved at one call and next used as the argument of another is
      not restored for it: the second call reads what the first left there. */
  lemma {:induction false} ArgumentIsLost<M>(m: Machine<M>, c: Config, i: Insn, j: Insn, s: Source<M>, z: Saved<M>)
    requires TwoCalls(c, i, j)
    requires s.mem == z.mem && s.regs == z.regs && m.havoc(i, [[]], z.mem, 0) != z.regs(0)
    ensures Liveness([i, j], {}) && ArgumentsDie(c, {0}, [i, j], {}) && CallSaveable(c, i) && CallSaveable(c, j)
    ensures !SameBehaviour(m, c, {0}, [i, j], {}, RewriteBlock(c, {}, [i, j]), s, z)
  {
    TwoCallsLive(i, j, {0}, c);
    TwoCallsRewritten(c, i, j);
    TraceRewritten(m, c, i, j, z);
    TraceWritten(m, c, i, j, s);
  }

  /** An argument register of a call is not saved, even if it stays live: the
      next call that takes it reads what the first left there. */
  lemma {:induction false} LiveArgumentIsRuined<M>(m: Machine<M>, c: Config, i: Insn, j: Insn,
                                                   s: Source<M>, z: Saved<M>)
    requires OneRegister(c)
    requires i == Insn(Call, [], i.block, {0}, {0}, {}) && j == Insn(Call, [], j.block, {0}, {0}, {0})
    requires s.mem == z.mem && s.regs == z.regs && m.havoc(i, [[z.regs(0)]], z.mem, 0) != z.regs(0)
    ensures Liveness([i, j], {}) && CallSaveable(c, i) && CallSaveable(c, j) && ArgumentsReady(c, {}, [i, j])
    ensures !ArgumentsDie(c, {0}, [i, j], {})
    ensures !SameBehaviour(m, c, {0}, [i, j], {}, RewriteBlock(c, {}, [i, j]), s, z)
  {
    TwoCallsLive(i, j, {0}, c);
    NothingSaved(c, i, j);
    TracesUnsaved(m, c, i, j, s, z);
  }

  /** What two calls that both take the register read, rewritten and as written. */
  lemma {:induction false} TracesUnsaved<M>(m: Machine<M>, c: Config, i: Insn, j: Insn, s: Source<M>, z: Saved<M>)
    requires c.t.nregs == 1 && i.kind == j.kind == Call && i.pat == j.pat == [] && i.usage == j.usage == {0}
    ensures TraceOut(m, c, {0}, [Orig(i), Orig(j)], z)
            == [[[z.regs(0)]], [[m.havoc(i, [[z.regs(0)]], z.mem, 0)]]]
    ensures TraceSource(m, c, [i, j], s) == [[[s.regs(0)]], [[s.regs(0)]]]
  {
    var os, js := [Orig(i), Orig(j)], [Orig(j)];
    var z1, s1 := StepSaved(m, c, {0}, i, z), StepSource(m, c, i, s);
    ObservesArgument(m, c.t, i, z.regs, z.mem);
    ObservesArgument(m, c.t, i, s.regs, s.mem);
    ObservesArgument(m, c.t, j, z1.regs, z1.mem);
    ObservesArgument(m, c.t, j, s1.regs, s1.mem);
    assert [i, j][1..] == [j] && [j][1..] == [];
    assert TraceSource(m, c, [j], s1) == [[[s.regs(0)]]];
    assert os[1..] == js && js[1..] == [];
    TraceFirst(m, c, {0}, js, z1);
    TraceFirst(m, c, {0}, os, z);
  }

  /** Calls without candidates are left alone. */
  lemma {:induction false} NothingSaved(c: Config, i: Insn, j: Insn)
    requires Fits(c) && i.kind.Call? && j.kind.Call? && Candidates(c, i) == {} && Candidates(c, j) == {}
    ensures CallSaveable(c, i) && CallSaveable(c, j) && ArgumentsReady(c, {}, [i, j])
    ensures RewriteBlock(c, {}, [i, j]) == [Orig(i), Orig(j)]
  {
    NoGroups(c, 0);
    assert forall x :: Referenced(x, {}) == {};
    var none: set<nat> := {};
    assert none - none == none;
    assert [i, j][1..] == [j] && [j][1..] == [];
    assert SavedAfter(c, i, {}) == {} && SavedAfter(c, j, {}) == {};
    assert RewriteBlock(c, {}, [j]) == [Orig(j)];
    assert ArgumentsReady(c, {}, [j]);
  }

  /** What the rewritten calls read. */
  lemma {:induction false} TraceRewritten<M>(m: Machine<M>, c: Config, i: Insn, j: Insn, z: Saved<M>)
    requires c.t.nregs == 1 && Group(0, 1) in c.mem && i.kind == j.kind == Call && i.pat == j.pat == []
    requires i.usage == {} && j.usage == {0}
    ensures var os := [Save(Group(0, 1)), Orig(i), Orig(j), Restore(Group(0, 1))];
            && (forall o <- os :: Uses(c, o))
            && TraceOut(m, c, {0}, os, z) == [[[]], [[m.havoc(i, [[]], z.mem, 0)]]]
  {
    var g := Group(0, 1);
    var z1 := DoSave(c, g, z);
    var z2 := StepSaved(m, c, {0}, i, z1);
    var z3 := StepSaved(m, c, {0}, j, z2);
    ObservesArgument(m, c.t, i, z1.regs, z1.mem);
    ObservesArgument(m, c.t, j, z2.regs, z2.mem);
    assert [Restore(g)][1..] == [];
    TraceFirst(m, c, {0}, [Restore(g)], z3);
    TraceFirst(m, c, {0}, [Orig(j), Restore(g)], z2);
    TraceFirst(m, c, {0}, [Orig(i), Orig(j), Restore(g)], z1);
    TraceFirst(m, c, {0}, [Save(g), Orig(i), Orig(j), Restore(g)], z);
    assert [Orig(j), Restore(g)][1..] == [Restore(g)];
    assert [Orig(i), Orig(j), Restore(g)][1..] == [Orig(j), Restore(g)];
    assert [Save(g), Orig(i), Orig(j), Restore(g)][1..] == [Orig(i), Orig(j), Restore(g)];
  }

  lemma {:induction false} TraceFirst<M>(m: Machine<M>, c: Config, lost: set<nat>, os: seq<Out>, s: Saved<M>)
    requires os != [] && forall o <- os :: Uses(c, o)
    ensures TraceOut(m, c, lost, os, s)
            == (if os[0].Orig? then [Observed(m, c.t, os[0].insn, s.regs, s.mem)] else [])
               + TraceOut(m, c, lost, os[1..], StepOut(m, c, lost, os[0], s))
  {
  }

  /** What the calls read as written. */
  lemma {:induction false} TraceWritten<M>(m: Machine<M>, c: Config, i: Insn, j: Insn, s: Source<M>)
    requires c.t.nregs == 1 && i.kind == j.kind == Call && i.pat == j.pat == [] && i.usage == {} && j.usage == {0}
    ensures TraceSource(m, c, [i, j], s) == [[[]], [[s.regs(0)]]]
  {
    var s1 := StepSource(m, c, i, s);
    ObservesArgument(m, c.t, i, s.regs, s.mem);
    ObservesArgument(m, c.t, j, s1.regs, s1.mem);
    assert [i, j][1..] == [j] && [j][1..] == [];
    assert TraceSource(m, c, [j], s1) == [[[s.regs(0)]]];
  }

  lemma {:induction false} ObservesArgument<M>(m: Machine<M>, t: Target, i: Insn, f: RegFile, mem: M)
    requires t.nregs == 1 && i.kind == Call && i.pat == []
    ensures Observed(m, t, i, f, mem) == if 0 in i.usage then [[f(0)]] else [[]]
  {
    assert Pick(i.usage, f, 0) == [];
  }
}
