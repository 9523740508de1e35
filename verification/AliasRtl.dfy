/** Address expressions as alias.c sees them, their canonical form and their
    value in an environment. */
module AliasRtl {

  /** Things an address can be relative to.  Distinct symbols and labels are
      distinct objects. */
  datatype Object = Symbol(name: string) | Label(num: nat)

  datatype Rtx =
    | Reg(regno: nat)
    | ConstInt(intval: int)
    | ObjectRef(obj: Object)                // SYMBOL_REF and LABEL_REF
    | Plus(left: Rtx, right: Rtx)
    | Mult(left: Rtx, right: Rtx)
    | Const(inner: Rtx)
    | PreInc(addr: Rtx) | PreDec(addr: Rtx) | PostInc(addr: Rtx) | PostDec(addr: Rtx)

  /** The tables a query reads.  `known` holds the entries of reg_known_value
      that differ from the register itself, `invariants` the nonzero entries of
      alias_invariant.  `depth` witnesses that following either table ends. */
  datatype Tables = Tables(known: map<nat, Rtx>, invariants: map<nat, Rtx>, depth: nat -> nat)

  function Max(a: nat, b: nat): nat { if a < b then b else a }

  function RegDepth(t: Tables, r: nat): nat {
    if r in t.known || r in t.invariants then t.depth(r) + 1 else 0
  }

  function Depth(t: Tables, x: Rtx): nat {
    match x
    case Reg(r) => RegDepth(t, r)
    case ConstInt(_) => 0
    case ObjectRef(_) => 0
    case Plus(a, b) => Max(Depth(t, a), Depth(t, b))
    case Mult(a, b) => Max(Depth(t, a), Depth(t, b))
    case Const(a) => Depth(t, a)
    case PreInc(a) => Depth(t, a)
    case PreDec(a) => Depth(t, a)
    case PostInc(a) => Depth(t, a)
    case PostDec(a) => Depth(t, a)
  }

  /** No side effects anywhere in the expression. */
  predicate Pure(x: Rtx) {
    match x
    case Plus(a, b) => Pure(a) && Pure(b)
    case Mult(a, b) => Pure(a) && Pure(b)
    case Const(a) => Pure(a)
    case PreInc(_) => false
    case PreDec(_) => false
    case PostInc(_) => false
    case PostDec(_) => false
    case _ => true
  }

  /** An address as it stands in a MEM: an auto-increment may only be outermost. */
  predicate Address(x: Rtx) {
    match x
    case PreInc(a) => Pure(a)
    case PreDec(a) => Pure(a)
    case PostInc(a) => Pure(a)
    case PostDec(a) => Pure(a)
    case _ => Pure(x)
  }

  /** Every table entry is a pure expression and only leads to shallower registers. */
  ghost predicate Acyclic(t: Tables) {
    && (forall r <- t.known :: Pure(t.known[r]) && Depth(t, t.known[r]) <= t.depth(r))
    && (forall r <- t.invariants :: Pure(t.invariants[r]) && Depth(t, t.invariants[r]) <= t.depth(r))
  }

  // ----- values -----

  /** What each register holds: an integer multiple of every object's address
      plus a byte offset. */
  datatype Env = Env(coef: (nat, Object) -> int, off: nat -> int)

  /** How often object `o` counts in the value of `x`.  Products of two
      object addresses count as nothing. */
  ghost function Coef(env: Env, x: Rtx, o: Object): int {
    match x
    case Reg(r) => env.coef(r, o)
    case ObjectRef(p) => if p == o then 1 else 0
    case Plus(a, b) => Coef(env, a, o) + Coef(env, b, o)
    case Mult(a, b) => Coef(env, a, o) * Off(env, b) + Off(env, a) * Coef(env, b, o)
    case Const(a) => Coef(env, a, o)
    case _ => 0
  }

  /** The byte offset in the value of `x`. */
  ghost function Off(env: Env, x: Rtx): int {
    match x
    case Reg(r) => env.off(r)
    case ConstInt(k) => k
    case Plus(a, b) => Off(env, a) + Off(env, b)
    case Mult(a, b) => Off(env, a) * Off(env, b)
    case Const(a) => Off(env, a)
    case _ => 0
  }

  ghost predicate SameBase(env: Env, x: Rtx, y: Rtx) {
    forall o :: Coef(env, x, o) == Coef(env, y, o)
  }

  ghost predicate SameValue(env: Env, x: Rtx, y: Rtx) {
    SameBase(env, x, y) && Off(env, x) == Off(env, y)
  }

  /** The environment agrees with everything the tables claim. */
  ghost predicate Consistent(t: Tables, env: Env) {
    && (forall r <- t.known :: SameValue(env, Reg(r), t.known[r]))
    && (forall r <- t.invariants :: SameValue(env, Reg(r), t.invariants[r]))
  }

  // ----- termination measures -----

  /** Size of `x` with every table entry expanded in place; CONST is free. */
  ghost function Weight(t: Tables, x: Rtx): nat
    requires Acyclic(t)
    decreases Depth(t, x), x
  {
    match x
    case Reg(r) =>
      1 + (if r in t.known then Weight(t, t.known[r]) else 0)
        + (if r in t.invariants then Weight(t, t.invariants[r]) else 0)
    case ConstInt(_) => 1
    case ObjectRef(_) => 1
    case Plus(a, b) => 1 + Weight(t, a) + Weight(t, b)
    case Mult(a, b) => 1 + Weight(t, a) + Weight(t, b)
    case Const(a) => Weight(t, a)
    case PreInc(a) => 3 + Weight(t, a)
    case PreDec(a) => 3 + Weight(t, a)
    case PostInc(a) => 3 + Weight(t, a)
    case PostDec(a) => 3 + Weight(t, a)
  }

  ghost function Size(x: Rtx): nat {
    match x
    case Plus(a, b) => 1 + Size(a) + Size(b)
    case Mult(a, b) => 1 + Size(a) + Size(b)
    case Const(a) => 1 + Size(a)
    case _ => 1
  }

  // ----- adding a constant -----

  predicate ConstantP(x: Rtx) {
    x.ConstInt? || x.ObjectRef? || x.Const?
  }

  /** The tail of plus_constant_wide: attach what is left of the constant. */
  function Attach(x: Rtx, c: int, allConstant: bool): Rtx {
    var s := if c != 0 then Plus(x, ConstInt(c)) else x;
    if s.ObjectRef? || !allConstant then s else Const(s)
  }

  /** plus_constant_wide from its `restart' label on. */
  function AddConstant(x: Rtx, c: int, allConstant: bool): Rtx
    decreases x, 0
  {
    match x
    case ConstInt(k) => ConstInt(k + c)
    case Const(a) => AddConstant(a, c, true)
    case ObjectRef(_) => Attach(x, c, true)
    case Plus(a, b) =>
      if b.ConstInt? then AddConstant(a, c + b.intval, allConstant)
      else if ConstantP(a) then Attach(Plus(PlusConstant(a, c), b), 0, allConstant)
      else if ConstantP(b) then Attach(Plus(a, PlusConstant(b, c)), 0, allConstant)
      else Attach(x, c, allConstant)
    case _ => Attach(x, c, allConstant)
  }

  /** plus_constant: the sum of an expression and an integer. */
  function PlusConstant(x: Rtx, c: int): Rtx
    decreases x, 1
  {
    if c == 0 then x else AddConstant(x, c, false)
  }

  lemma {:induction false} AttachValue(env: Env, x: Rtx, c: int, allConstant: bool)
    ensures forall o :: Coef(env, Attach(x, c, allConstant), o) == Coef(env, x, o)
    ensures Off(env, Attach(x, c, allConstant)) == Off(env, x) + c
  {
    var sum := Plus(x, ConstInt(c));
    assert forall o :: Coef(env, sum, o) == Coef(env, x, o) + Coef(env, ConstInt(c), o);
    assert Off(env, sum) == Off(env, x) + Off(env, ConstInt(c));
  }

  lemma {:induction false} AttachSize(t: Tables, x: Rtx, c: int, allConstant: bool)
    requires Acyclic(t)
    ensures Weight(t, Attach(x, c, allConstant)) <= Weight(t, x) + (if c == 0 then 0 else 2)
    ensures Pure(x) ==> Pure(Attach(x, c, allConstant))
  {
    var sum := Plus(x, ConstInt(c));
    assert Weight(t, sum) == 1 + Weight(t, x) + Weight(t, ConstInt(c));
  }

  lemma {:induction false} AddConstantValue(env: Env, x: Rtx, c: int, allConstant: bool)
    ensures forall o :: Coef(env, AddConstant(x, c, allConstant), o) == Coef(env, x, o)
    ensures Off(env, AddConstant(x, c, allConstant)) == Off(env, x) + c
    decreases x
  {
    match x
    case Const(a) => AddConstantValue(env, a, c, true);
    case Plus(a, b) =>
      if b.ConstInt? {
        AddConstantValue(env, a, c + b.intval, allConstant);
      } else if ConstantP(a) {
        AddConstantValue(env, a, c, false);
        AttachValue(env, Plus(PlusConstant(a, c), b), 0, allConstant);
      } else if ConstantP(b) {
        AddConstantValue(env, b, c, false);
        AttachValue(env, Plus(a, PlusConstant(b, c)), 0, allConstant);
      } else {
        AttachValue(env, x, c, allConstant);
      }
    case ObjectRef(_) => AttachValue(env, x, c, true);
    case ConstInt(_) =>
    case _ => AttachValue(env, x, c, allConstant);
  }

  lemma {:induction false} AddConstantSize(t: Tables, x: Rtx, c: int, allConstant: bool)
    requires Acyclic(t)
    ensures Weight(t, AddConstant(x, c, allConstant)) <= Weight(t, x) + 2
    ensures Pure(x) ==> Pure(AddConstant(x, c, allConstant))
    decreases x
  {
    match x
    case Const(a) => AddConstantSize(t, a, c, true);
    case Plus(a, b) =>
      if b.ConstInt? {
        AddConstantSize(t, a, c + b.intval, allConstant);
      } else if ConstantP(a) {
        AddConstantSize(t, a, c, false);
        AttachSize(t, Plus(PlusConstant(a, c), b), 0, allConstant);
      } else if ConstantP(b) {
        AddConstantSize(t, b, c, false);
        AttachSize(t, Plus(a, PlusConstant(b, c)), 0, allConstant);
      } else {
        AttachSize(t, x, c, allConstant);
      }
    case ObjectRef(_) => AttachSize(t, x, c, true);
    case ConstInt(_) =>
    case _ => AttachSize(t, x, c, allConstant);
  }

  /** plus_constant adds exactly its constant and never grows an expression by
      more than one sum. */
  lemma PlusConstantFacts(t: Tables, env: Env, x: Rtx, c: int)
    requires Acyclic(t)
    ensures forall o :: Coef(env, PlusConstant(x, c), o) == Coef(env, x, o)
    ensures Off(env, PlusConstant(x, c)) == Off(env, x) + c
    ensures Weight(t, PlusConstant(x, c)) <= Weight(t, x) + 2
    ensures Pure(x) ==> Pure(PlusConstant(x, c))
  {
    if c != 0 {
      AddConstantValue(env, x, c, false);
      AddConstantSize(t, x, c, false);
    }
  }

  lemma {:induction false} AllConstant(x: Rtx, c: int)
    ensures ConstantP(AddConstant(x, c, true))
    decreases x
  {
    match x
    case Const(a) => AllConstant(a, c);
    case Plus(a, b) => if b.ConstInt? { AllConstant(a, c + b.intval); }
    case _ =>
  }

  /** A constant plus an integer is a constant, wrapped in a CONST if it is a sum. */
  lemma ConstantsStay(x: Rtx, c: int)
    requires ConstantP(x)
    ensures ConstantP(PlusConstant(x, c))
  {
    if x.Const? { AllConstant(x.inner, c); }
  }

  // ----- canonical form -----

  /** canon_rtx on address expressions. */
  function Canon(t: Tables, x: Rtx): Rtx
    requires Acyclic(t)
    decreases Depth(t, x), x
  {
    match x
    case Reg(r) => if r in t.known then Canon(t, t.known[r]) else x
    case Plus(a, b) =>
      var a' := Canon(t, a);
      var b' := Canon(t, b);
      if a' != a || b' != b then
        if a'.ConstInt? then PlusConstant(b', a'.intval)
        else if b'.ConstInt? then PlusConstant(a', b'.intval)
        else Plus(a', b')
      else x
    case _ => x
  }

  /** Canonicalisation terminates because it only ever shrinks the expanded expression. */
  lemma {:induction false} CanonShrinks(t: Tables, x: Rtx)
    requires Acyclic(t)
    ensures Canon(t, x) == x || Weight(t, Canon(t, x)) < Weight(t, x)
    ensures Pure(x) ==> Pure(Canon(t, x))
    decreases Depth(t, x), x
  {
    match x
    case Reg(r) => if r in t.known { CanonShrinks(t, t.known[r]); }
    case Plus(a, b) =>
      CanonShrinks(t, a);
      CanonShrinks(t, b);
      var a', b' := Canon(t, a), Canon(t, b);
      var env := Env((r, o) => 0, r => 0);
      if (a' != a || b' != b) && a'.ConstInt? {
        PlusConstantFacts(t, env, b', a'.intval);
      } else if (a' != a || b' != b) && b'.ConstInt? {
        PlusConstantFacts(t, env, a', b'.intval);
      }
    case _ =>
  }

  /** Canonicalisation keeps the value in every consistent environment. */
  lemma {:induction false} CanonKeepsValue(t: Tables, env: Env, x: Rtx)
    requires Acyclic(t) && Consistent(t, env)
    ensures SameValue(env, Canon(t, x), x)
    decreases Depth(t, x), x
  {
    match x
    case Reg(r) => if r in t.known { CanonKeepsValue(t, env, t.known[r]); }
    case Plus(a, b) =>
      CanonKeepsValue(t, env, a);
      CanonKeepsValue(t, env, b);
      var a', b' := Canon(t, a), Canon(t, b);
      if (a' != a || b' != b) && a'.ConstInt? {
        PlusConstantFacts(t, env, b', a'.intval);
        assert Off(env, Canon(t, x)) == Off(env, b') + Off(env, a') == Off(env, x);
      } else if (a' != a || b' != b) && b'.ConstInt? {
        PlusConstantFacts(t, env, a', b'.intval);
        assert Off(env, Canon(t, x)) == Off(env, a') + Off(env, b') == Off(env, x);
      } else {
        assert Off(env, Plus(a', b')) == Off(env, a') + Off(env, b') == Off(env, x);
      }
    case _ =>
  }

  /** No register that canonicalisation would replace is left in the open. */
  ghost predicate CanonForm(t: Tables, x: Rtx) {
    match x
    case Reg(r) => r !in t.known
    case Plus(a, b) => CanonForm(t, a) && CanonForm(t, b)
    case _ => true
  }

  lemma {:induction false} AddConstantForm(t: Tables, x: Rtx, c: int, allConstant: bool)
    requires allConstant || CanonForm(t, x)
    ensures CanonForm(t, AddConstant(x, c, allConstant))
    decreases x
  {
    match x
    case Const(a) => AddConstantForm(t, a, c, true);
    case Plus(a, b) =>
      if b.ConstInt? {
        AddConstantForm(t, a, c + b.intval, allConstant);
      } else if ConstantP(a) {
        AddConstantForm(t, a, c, false);
      } else if ConstantP(b) {
        AddConstantForm(t, b, c, false);
      }
    case _ =>
  }

  lemma {:induction false} CanonHasForm(t: Tables, x: Rtx)
    requires Acyclic(t)
    ensures CanonForm(t, Canon(t, x))
    decreases Depth(t, x), x
  {
    match x
    case Reg(r) => if r in t.known { CanonHasForm(t, t.known[r]); }
    case Plus(a, b) =>
      CanonHasForm(t, a);
      CanonHasForm(t, b);
      var a', b' := Canon(t, a), Canon(t, b);
      if a'.ConstInt? && a'.intval != 0 {
        AddConstantForm(t, b', a'.intval, false);
      } else if b'.ConstInt? && b'.intval != 0 {
        AddConstantForm(t, a', b'.intval, false);
      }
    case _ =>
  }

  lemma {:induction false} FormIsFixed(t: Tables, x: Rtx)
    requires Acyclic(t) && CanonForm(t, x)
    ensures Canon(t, x) == x
    decreases x
  {
    if x.Plus? {
      FormIsFixed(t, x.left);
      FormIsFixed(t, x.right);
    }
  }

  /** Canonicalising twice changes nothing more. */
  lemma CanonIdempotent(t: Tables, x: Rtx)
    requires Acyclic(t)
    ensures Canon(t, Canon(t, x)) == Canon(t, x)
  {
    CanonHasForm(t, x);
    FormIsFixed(t, Canon(t, x));
  }
}
