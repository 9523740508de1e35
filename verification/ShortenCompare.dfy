/** Comparison narrowing: shorten_compare with get_narrower, on integers of any width. */
module ShortenCompare {
  import opened Arithmetic
  import opened Options

  // ----- integer types and values -----

  lemma {:induction false} Pow2Grows(m: nat, n: nat)
    requires m < n
    ensures 2 * Pow2(m) <= Pow2(n)
  {
    if m < n - 1 { Pow2Grows(m, n - 1); }
  }

  datatype Type = Type(prec: nat, unsigned: bool)

  predicate Proper(t: Type) { t.prec > 0 }

  function Min(t: Type): int
    requires Proper(t)
  {
    if t.unsigned then 0 else -Pow2(t.prec - 1)
  }

  function Max(t: Type): int
    requires Proper(t)
  {
    if t.unsigned then Pow2(t.prec) - 1 else Pow2(t.prec - 1) - 1
  }

  predicate Fits(v: int, t: Type)
    requires Proper(t)
  {
    Min(t) <= v <= Max(t)
  }

  /** Conversion: the value of `t` that agrees with `v` in the low bits. */
  function Wrap(t: Type, v: int): (r: int)
    requires Proper(t)
    ensures Fits(r, t)
  {
    var low := v % Pow2(t.prec);
    if !t.unsigned && low >= Pow2(t.prec - 1) then low - Pow2(t.prec) else low
  }

  lemma ModNear(v: int, p: int)
    requires p > 0 && -p <= v < p
    ensures v % p == if v < 0 then v + p else v
  {
    if v < 0 {
      var q := v / p;
      assert v == q * p + v % p;
      assert q >= 0 ==> q * p >= 0;
      assert q <= -2 ==> q * p <= -2 * p;
    }
  }

  /** Conversion keeps the low bits. */
  lemma WrapKeepsLow(t: Type, v: int)
    requires Proper(t)
    ensures (Wrap(t, v) - v) % Pow2(t.prec) == 0
  {
    var p := Pow2(t.prec);
    LowBits(v, p);
  }

  lemma LowBits(v: int, p: int)
    requires p > 0
    ensures (v % p - v) % p == 0 && (v % p - p - v) % p == 0
  {
    var q := v / p;
    assert v == q * p + v % p;
    assert v % p - v == -q * p;
    Multiple(-q, p);
    Multiple(-q - 1, p);
  }

  lemma Multiple(q: int, p: int)
    requires p > 0
    ensures q * p % p == 0 && (-1 - q) * p == -(q * p) - p
  {
    var d := q * p / p;
    assert q * p == d * p + q * p % p;
    assert (q - d) * p == q * p % p;
    assert q - d >= 1 ==> (q - d) * p >= p;
    assert q - d <= -1 ==> (q - d) * p <= -p;
  }

  /** Values that need at most one turn. */
  lemma WrapNear(t: Type, v: int)
    requires Proper(t) && -Pow2(t.prec) <= v < Pow2(t.prec)
    ensures Wrap(t, v) == if v < Min(t) then v + Pow2(t.prec) else if v > Max(t) then v - Pow2(t.prec) else v
  {
    ModNear(v, Pow2(t.prec));
  }

  /** Two types of one precision differ in how they read the top bit. */
  lemma WrapAgain(t: Type, u: Type, v: int)
    requires Proper(t) && Proper(u) && t.prec == u.prec && -Pow2(t.prec) <= v < Pow2(t.prec)
    ensures Wrap(t, Wrap(u, v)) == Wrap(t, v)
  {
    WrapNear(u, v);
    WrapNear(t, v);
    WrapNear(t, Wrap(u, v));
  }

  lemma Widens(t: Type, u: Type)
    requires Proper(t) && Proper(u) && t.prec <= u.prec
    ensures Pow2(t.prec) <= Pow2(u.prec) && (t.prec < u.prec ==> Pow2(t.prec) <= Pow2(u.prec - 1))
    ensures forall v :: Fits(v, t) ==> -Pow2(u.prec) <= v < Pow2(u.prec)
  {
    if t.prec < u.prec {
      Pow2Grows(t.prec, u.prec);
    }
  }

  // ----- expressions -----

  /** An operand: a variable (or any other computed value), an integer constant,
      or a conversion.  `fixed` is TREE_CONSTANT of something not an integer constant. */
  datatype Expr =
    | Var(id: nat, varType: Type, fixed: bool)
    | Const(value: int, constType: Type)
    | Nop(to: Type, inner: Expr)

  function TypeOf(e: Expr): Type {
    match e
    case Var(_, t, _) => t
    case Const(_, t) => t
    case Nop(t, _) => t
  }

  /** Types are proper, and a converted constant is a constant of the new type. */
  predicate WellFormed(e: Expr) {
    Proper(TypeOf(e)) && (e.Nop? ==> WellFormed(e.inner) && !e.inner.Const?)
  }

  type Env = nat -> int

  function Value(e: Expr, env: Env): (v: int)
    requires WellFormed(e)
    ensures Fits(v, TypeOf(e))
  {
    match e
    case Var(x, t, _) => Wrap(t, env(x))
    case Const(c, t) => Wrap(t, c)
    case Nop(t, i) => Wrap(t, Value(i, env))
  }

  function Convert(t: Type, e: Expr): (r: Expr)
    requires Proper(t) && WellFormed(e)
    ensures WellFormed(r) && TypeOf(r) == t
  {
    if TypeOf(e) == t then e else if e.Const? then Const(Wrap(t, Wrap(e.constType, e.value)), t) else Nop(t, e)
  }

  lemma ConvertValue(t: Type, e: Expr, env: Env)
    requires Proper(t) && WellFormed(e)
    ensures Value(Convert(t, e), env) == Wrap(t, Value(e, env))
  {
    WrapFixed(t, Value(e, env));
    if e.Const? { WrapFixed(t, Wrap(t, Wrap(e.constType, e.value))); }
  }

  lemma WrapFixed(t: Type, v: int)
    requires Proper(t)
    ensures Fits(v, t) ==> Wrap(t, v) == v
  {
    if Fits(v, t) { WrapNear(t, v); }
  }

  predicate IsConstant(e: Expr) {
    match e
    case Var(_, _, fixed) => fixed
    case Const(_, _) => true
    case Nop(_, i) => IsConstant(i)
  }

  predicate IsZero(e: Expr)
    requires WellFormed(e)
  {
    e.Const? && Wrap(e.constType, e.value) == 0
  }

  // ----- get_narrower -----

  /** The loop of get_narrower from `op` on. */
  function Strip(op: Expr, uns: bool, first: bool): (r: (Expr, bool)) {
    if !op.Nop? || op.to.prec < TypeOf(op.inner).prec then (op, uns)
    else
      var t := TypeOf(op.inner);
      if op.to.prec > t.prec && !first && uns != t.unsigned then (op, uns)
      else Strip(op.inner, if first then t.unsigned else uns, false)
  }

  method GetNarrower(e: Expr) returns (win: Expr, uns: bool)
    ensures (win, uns) == Strip(e, false, true)
  {
    var op, first := e, true;
    win, uns := e, false;
    while op.Nop?
      invariant win == op
      invariant Strip(op, uns, first) == Strip(e, false, true)
      decreases op
    {
      var t := TypeOf(op.inner);
      if op.to.prec < t.prec { break; }
      if op.to.prec > t.prec && !first && uns != t.unsigned { break; }
      if first { uns := t.unsigned; }
      op, first := op.inner, false;
      win := op;
    }
  }

  /** A value read as `uns` says, whatever the signedness of its type. */
  function Read(e: Expr, uns: bool, env: Env): (v: int)
    requires WellFormed(e)
    ensures Fits(v, Type(TypeOf(e).prec, uns))
  {
    Wrap(Type(TypeOf(e).prec, uns), Value(e, env))
  }

  /** Stripping further never changes what is read. */
  lemma {:induction false} StripReads(op: Expr, uns: bool, env: Env)
    requires WellFormed(op)
    ensures var (w, u) := Strip(op, uns, false);
            WellFormed(w) && u == uns && TypeOf(w).prec <= TypeOf(op).prec && Read(w, u, env) == Read(op, uns, env)
  {
    if op.Nop? && op.to.prec >= TypeOf(op.inner).prec {
      var t, v := TypeOf(op.inner), Value(op.inner, env);
      if op.to.prec == t.prec || uns == t.unsigned {
        StripReads(op.inner, uns, env);
        Widens(t, op.to);
        WrapAgain(Type(op.to.prec, uns), op.to, v);
        if op.to.prec > t.prec {
          WrapFixed(t, v);
          WrapNear(Type(op.to.prec, uns), v);
        }
      }
    }
  }

  /** get_narrower: extending the narrower value gives the operand back. */
  lemma NarrowerExtends(op: Expr, env: Env)
    requires WellFormed(op)
    ensures var (w, u) := Strip(op, false, true);
            && WellFormed(w) && TypeOf(w).prec <= TypeOf(op).prec
            && Value(op, env) == Wrap(TypeOf(op), Read(w, u, env))
  {
    if op.Nop? && op.to.prec >= TypeOf(op.inner).prec {
      var t := TypeOf(op.inner);
      StripReads(op.inner, t.unsigned, env);
      WrapFixed(t, Value(op.inner, env));
    } else {
      var t, v := TypeOf(op), Value(op, env);
      WrapFixed(t, v);
      Widens(t, t);
      WrapAgain(t, Type(t.prec, false), v);
    }
  }

  /** What is left is not a conversion, or narrows, or extends in the other way than the ones stripped. */
  lemma {:induction false} StripStops(op: Expr, uns: bool, first: bool)
    ensures var (w, u) := Strip(op, uns, first);
            w.Nop? ==>
              var t := TypeOf(w.inner);
              w.to.prec < t.prec || (w.to.prec > t.prec && u != t.unsigned && !(first && w == op))
  {
    if op.Nop? && op.to.prec >= TypeOf(op.inner).prec {
      var t := TypeOf(op.inner);
      if !(op.to.prec > t.prec && !first && uns != t.unsigned) {
        StripStops(op.inner, if first then t.unsigned else uns, false);
        if first { StripShrinks(op.inner, t.unsigned); }
      }
    }
  }

  lemma {:induction false} StripShrinks(op: Expr, uns: bool)
    ensures Height(Strip(op, uns, false).0) <= Height(op)
  {
    if op.Nop? && op.to.prec >= TypeOf(op.inner).prec {
      var t := TypeOf(op.inner);
      if !(op.to.prec > t.prec && uns != t.unsigned) { StripShrinks(op.inner, uns); }
    }
  }

  function Height(e: Expr): nat { if e.Nop? then 1 + Height(e.inner) else 0 }

  // ----- shorten_compare -----

  datatype Code = Lt | Gt | Le | Ge | Eq | Ne

  predicate Holds(code: Code, a: int, b: int) {
    match code
    case Lt => a < b
    case Gt => a > b
    case Le => a <= b
    case Ge => a >= b
    case Eq => a == b
    case Ne => a != b
  }

  function Swapped(code: Code): Code {
    match code
    case Lt => Gt
    case Gt => Lt
    case Le => Ge
    case Ge => Le
    case _ => code
  }

  /** An operand with its narrower form and how that is extended. */
  datatype Operand = Operand(op: Expr, prim: Expr, uns: bool)

  predicate GoodOperand(o: Operand, res: Type) {
    && Proper(res) && WellFormed(o.op) && WellFormed(o.prim)
    && TypeOf(o.prim).prec <= TypeOf(o.op).prec <= res.prec
    && (o.op.Const? ==> o.prim == o.op)
  }

  function Narrowed(op: Expr, res: Type): Operand {
    var (prim, uns) := Strip(op, false, true);
    Operand(op, prim, if op == prim && TypeOf(op) != res then TypeOf(op).unsigned else uns)
  }

  /** A constant answer, or a comparison of two operands of one type. */
  datatype Outcome = Always(b: bool) | Compare(code: Code, op0: Expr, op1: Expr)

  /** The result fixed by where the constant `c` lies relative to the bounds. */
  function Fixed(code: Code, min: int, max: int, c: int): Option<bool> {
    var (minGt, maxGt, minLt, maxLt) := (c < min, c < max, min < c, max < c);
    match code
    case Ne => if maxLt || minGt then Some(true) else None
    case Eq => if maxLt || minGt then Some(false) else None
    case Lt => if !minLt then Some(false) else if maxLt then Some(true) else None
    case Gt => if !maxGt then Some(false) else if minGt then Some(true) else None
    case Le => if minGt then Some(false) else if !maxGt then Some(true) else None
    case Ge => if maxLt then Some(false) else if !minLt then Some(true) else None
  }

  /** A comparison of a narrower operand with a constant. */
  function WithConstant(code: Code, x: Operand, c: Expr, res: Type): Outcome
    requires GoodOperand(x, res) && WellFormed(c) && c.Const? && TypeOf(x.prim).prec < res.prec
  {
    var reversed := res.unsigned && !x.uns;
    var t := Type(TypeOf(x.prim).prec, x.uns);
    var res' := Type(res.prec, res.unsigned && x.uns);
    var c' := Convert(res', c);
    var val := Fixed(code, Wrap(res', Min(t)), Wrap(res', Max(t)), Wrap(res', c'.value));
    if !reversed then
      if val.Some? then Always(val.value) else Compare(code, Convert(t, x.prim), Convert(t, c'))
    else
      var u := Type(t.prec, true);
      if val.Some? && (code.Eq? || code.Ne?) then Always(val.value)
      else
        var bound := if val.None? then c' else if code.Lt? || code.Ge? then Const(Min(t), t) else Const(Max(t), t);
        Compare(code, Convert(u, x.prim), Convert(u, bound))
  }

  /** Operands that are extended alike are compared in the wider of their types. */
  function Alike(code: Code, x: Operand, y: Operand, res: Type): Outcome
    requires GoodOperand(x, res) && GoodOperand(y, res)
  {
    var (p, q) := (TypeOf(x.prim).prec, TypeOf(y.prim).prec);
    var t := Type(if p > q then p else q, x.uns || res.unsigned);
    Compare(code, Convert(t, Convert(Type(p, x.uns), x.prim)), Convert(t, Convert(Type(q, y.uns), y.prim)))
  }

  /** The comparison in the nominal type. */
  function Nominal(code: Code, op0: Expr, op1: Expr, res: Type): Outcome
    requires Proper(res) && WellFormed(op0) && WellFormed(op1)
  {
    if IsZero(op1) && res.unsigned && code.Ge? then Always(true)
    else if IsZero(op1) && res.unsigned && code.Lt? then Always(false)
    else Compare(code, Convert(res, op0), Convert(res, op1))
  }

  /** The comparison once a constant operand is in second place. */
  function Narrow(code: Code, x: Operand, y: Operand, res: Type): Outcome
    requires GoodOperand(x, res) && GoodOperand(y, res)
  {
    if y.prim.Const? && TypeOf(x.prim).prec < res.prec then WithConstant(code, x, y.prim, res)
    else if x.uns == y.uns && TypeOf(x.prim).prec < res.prec && TypeOf(y.prim).prec < res.prec
        then Alike(code, x, y, res)
    else Nominal(code, x.op, y.op, res)
  }

  /** shorten_compare: operands converted to `res`, their common type. */
  function Shorten(code: Code, op0: Expr, op1: Expr, res: Type): Outcome
    requires Proper(res) && WellFormed(op0) && WellFormed(op1)
    requires TypeOf(op0).prec <= res.prec && TypeOf(op1).prec <= res.prec
  {
    NarrowedGood(op0, res);
    NarrowedGood(op1, res);
    var (a, b) := (Narrowed(op0, res), Narrowed(op1, res));
    var swap := IsConstant(a.prim) && !IsZero(b.prim);
    if swap then Narrow(Swapped(code), b, a, res) else Narrow(code, a, b, res)
  }

  // ----- what is gained -----

  /** The result is fixed exactly if all values in the range give it. */
  lemma FixedIff(code: Code, min: int, max: int, c: int, b: bool)
    requires min < max
    ensures Fixed(code, min, max, c) == Some(b) <==> forall x :: min <= x <= max ==> Holds(code, x, c) == b
  {
    if Fixed(code, min, max, c) != Some(b) {
      assert Holds(code, min, c) != b || Holds(code, max, c) != b || (min <= c <= max && Holds(code, c, c) != b);
    }
  }

  /** An unsigned comparison with zero is decided exactly if all values give one result. */
  lemma ZeroDecidedIff(code: Code, op0: Expr, op1: Expr, res: Type)
    requires Proper(res) && WellFormed(op0) && WellFormed(op1) && IsZero(op1) && res.unsigned
    ensures Nominal(code, op0, op1, res).Always? <==>
            forall v, w :: Fits(v, res) && Fits(w, res) ==> Holds(code, v, 0) == Holds(code, w, 0)
  {
    assert Pow2(res.prec) == 2 * Pow2(res.prec - 1);
    assert Fits(0, res) && Fits(1, res);
    assert Holds(code, 0, 0) == Holds(code, 1, 0) ==> code == Ge || code == Lt;
  }

  /** The comparison that is put out is no wider than it has to be: as wide as the
      operand that is compared with a constant, or as the wider of two that are
      extended alike, if those are narrower than the common type. */
  ghost predicate Gains(x: Operand, y: Operand, res: Type, o: Outcome) {
    o.Compare? ==>
      var (p, q) := (TypeOf(x.prim).prec, TypeOf(y.prim).prec);
      var narrow := Type(if y.prim.Const? || p > q then p else q, x.uns || res.unsigned);
      var gain := p < res.prec && (y.prim.Const? || (q < res.prec && x.uns == y.uns));
      TypeOf(o.op0) == TypeOf(o.op1) == if gain then narrow else res
  }

  lemma NarrowGains(code: Code, x: Operand, y: Operand, res: Type)
    requires GoodOperand(x, res) && GoodOperand(y, res)
    ensures Gains(x, y, res, Narrow(code, x, y, res))
  {
  }

  lemma {:induction false} StripConstant(op: Expr, uns: bool, first: bool)
    ensures IsConstant(Strip(op, uns, first).0) == IsConstant(op)
  {
    if op.Nop? && op.to.prec >= TypeOf(op.inner).prec &&
        !(op.to.prec > TypeOf(op.inner).prec && !first && uns != TypeOf(op.inner).unsigned) {
      StripConstant(op.inner, if first then TypeOf(op.inner).unsigned else uns, false);
    }
  }

  /** A constant goes second whichever way the comparison is written, and then
      the comparison is as narrow as it can be. */
  lemma ConstantGoesSecond(code: Code, op0: Expr, op1: Expr, res: Type)
    requires Proper(res) && WellFormed(op0) && WellFormed(op1)
    requires TypeOf(op0).prec <= res.prec && TypeOf(op1).prec <= res.prec
    requires IsConstant(op0) && !IsConstant(op1)
    ensures Shorten(code, op0, op1, res) == Shorten(Swapped(code), op1, op0, res)
    ensures Gains(Narrowed(op1, res), Narrowed(op0, res), res, Shorten(code, op0, op1, res))
  {
    StripConstant(op0, false, true);
    StripConstant(op1, false, true);
    NarrowedGood(op0, res);
    NarrowedGood(op1, res);
    NarrowGains(Swapped(code), Narrowed(op1, res), Narrowed(op0, res), res);
  }

  /** A comparison whose first operand is no constant, or whose second is zero,
      stays the way round it is. */
  lemma OthersStay(code: Code, op0: Expr, op1: Expr, res: Type)
    requires Proper(res) && WellFormed(op0) && WellFormed(op1)
    requires TypeOf(op0).prec <= res.prec && TypeOf(op1).prec <= res.prec
    requires !IsConstant(op0) || IsZero(op1)
    ensures Gains(Narrowed(op0, res), Narrowed(op1, res), res, Shorten(code, op0, op1, res))
    ensures var o := Shorten(code, op0, op1, res); o.Compare? ==> o.code == code
  {
    StripConstant(op0, false, true);
    NarrowedGood(op0, res);
    NarrowedGood(op1, res);
    NarrowGains(code, Narrowed(op0, res), Narrowed(op1, res), res);
  }

  // ----- what the answer means -----

  predicate Answer(o: Outcome, env: Env)
    requires o.Compare? ==> WellFormed(o.op0) && WellFormed(o.op1) && TypeOf(o.op0) == TypeOf(o.op1)
  {
    match o
    case Always(b) => b
    case Compare(code, a, b) => Holds(code, Value(a, env), Value(b, env))
  }

  ghost predicate Sensible(o: Outcome) {
    o.Compare? ==> WellFormed(o.op0) && WellFormed(o.op1) && TypeOf(o.op0) == TypeOf(o.op1)
  }

  /** The comparison as written: both operands converted to the common type. */
  predicate Meant(code: Code, op0: Expr, op1: Expr, res: Type, env: Env)
    requires Proper(res) && WellFormed(op0) && WellFormed(op1)
  {
    Holds(code, Wrap(res, Value(op0, env)), Wrap(res, Value(op1, env)))
  }

  /** Extending the narrower operand directly to the common type is the same as
      extending it to the operand's own type first. */
  predicate Direct(op: Expr, res: Type) {
    var (prim, uns) := Strip(op, false, true);
    var t := TypeOf(op);
    op == prim || t.prec == res.prec || uns == t.unsigned || (uns && TypeOf(prim).prec < t.prec)
  }

  /** An operand of the comparison is its narrower form, extended. */
  ghost predicate Extends(o: Operand, res: Type, env: Env)
    requires GoodOperand(o, res)
  {
    Wrap(res, Value(o.op, env)) == Wrap(res, Read(o.prim, o.uns, env))
  }

  lemma {:induction false} StripConst(op: Expr, uns: bool, first: bool)
    requires WellFormed(op)
    ensures var (w, _) := Strip(op, uns, first); w.Const? ==> w == op
  {
    if op.Nop? && op.to.prec >= TypeOf(op.inner).prec &&
        !(op.to.prec > TypeOf(op.inner).prec && !first && uns != TypeOf(op.inner).unsigned) {
      StripConst(op.inner, if first then TypeOf(op.inner).unsigned else uns, false);
    }
  }

  lemma NarrowedGood(op: Expr, res: Type)
    requires Proper(res) && WellFormed(op) && TypeOf(op).prec <= res.prec
    ensures GoodOperand(Narrowed(op, res), res) && (Narrowed(op, res).prim.Const? ==> op.Const?)
  {
    NarrowerExtends(op, x => 0);
    StripConst(op, false, true);
  }

  /** The narrower form as get_narrower says to read it. */
  function Seen(op: Expr, env: Env): int
    requires WellFormed(op)
  {
    NarrowerExtends(op, env);
    var (prim, uns) := Strip(op, false, true);
    Read(prim, uns, env)
  }

  /** The top bit of the narrower form is set. */
  predicate TopBit(op: Expr, env: Env)
    requires WellFormed(op)
  {
    NarrowerExtends(op, env);
    var p := TypeOf(Strip(op, false, true).0).prec;
    Seen(op, env) < 0 || Seen(op, env) >= Pow2(p - 1)
  }

  lemma NarrowedExtends(op: Expr, res: Type, env: Env)
    requires Proper(res) && WellFormed(op) && TypeOf(op).prec <= res.prec && (Direct(op, res) || !TopBit(op, env))
    ensures GoodOperand(Narrowed(op, res), res)
    ensures TypeOf(Narrowed(op, res).prim).prec < res.prec ==> Extends(Narrowed(op, res), res, env)
  {
    NarrowedGood(op, res);
    NarrowerExtends(op, env);
    var o, t := Narrowed(op, res), TypeOf(op);
    if o.prim == op {
      WrapFixed(t, Value(op, env));
    } else {
      Composes(Type(TypeOf(o.prim).prec, o.uns), t, res, Read(o.prim, o.uns, env));
    }
  }

  /** Widening twice is widening at once. */
  lemma Composes(p: Type, t: Type, res: Type, x: int)
    requires Proper(p) && Proper(t) && Proper(res) && p.prec <= t.prec <= res.prec && Fits(x, p)
    requires t.prec == res.prec || p.unsigned == t.unsigned || (p.unsigned && p.prec < t.prec) ||
        0 <= x < Pow2(p.prec - 1)
    ensures Wrap(res, Wrap(t, x)) == Wrap(res, x)
  {
    Widens(p, t);
    Widens(t, res);
    if t.prec == res.prec {
      WrapAgain(res, t, x);
    } else {
      WrapFixed(t, x);
    }
  }

  // ----- the arithmetic of the cases -----

  /** A constant result is right when the operand is extended the way the common type compares. */
  lemma FixedIsRight(code: Code, t: Type, res: Type, x: int, v: int)
    requires Proper(t) && Proper(res) && t.prec < res.prec && Fits(x, t) && -Pow2(res.prec) <= v < Pow2(res.prec)
    requires t.unsigned || !res.unsigned
    ensures Wrap(res, x) == x && Wrap(res, Min(t)) == Min(t) && Wrap(res, Max(t)) == Max(t)
    ensures var c := Wrap(res, v);
            var val := Fixed(code, Min(t), Max(t), c);
            if val.Some? then val.value == Holds(code, x, c) else Fits(c, t)
  {
    Widens(t, res);
    WrapFixed(res, x);
    WrapFixed(res, Min(t));
    WrapFixed(res, Max(t));
    FixedHolds(code, Min(t), Max(t), Wrap(res, v), x);
  }

  lemma FixedHolds(code: Code, min: int, max: int, c: int, x: int)
    requires min <= x <= max
    ensures var val := Fixed(code, min, max, c); if val.Some? then val.value == Holds(code, x, c) else min <= c <= max
  {
  }

  /** Unsigned order on sign-extended values, in any width. */
  lemma SignExtendedOrder(t: Type, res: Type, x: int)
    requires Proper(t) && Proper(res) && t.prec <= res.prec && !t.unsigned && res.unsigned && Fits(x, t)
    ensures Wrap(res, x) == if x < 0 then x + Pow2(res.prec) else x
    ensures Pow2(res.prec) >= 2 * Pow2(t.prec - 1)
  {
    Widens(t, res);
    WrapNear(res, x);
    assert Pow2(t.prec) == 2 * Pow2(t.prec - 1);
  }

  /** A sign-extended value read as unsigned. */
  function Turned(x: int, p: int): int { if x < 0 then x + p else x }

  /** A sign-extended operand under an unsigned comparison: a signed result
      that is fixed says only on which side of the constant both halves lie. */
  lemma ReversedOrder(code: Code, lo: int, hi: int, g: int, x: int, c: int, x': int, c': int, xs: int, cs: int,
      min: int, max: int)
    requires lo + hi == -1 && 0 < -2 * lo <= g && lo <= x <= hi && -g <= c < g
    requires x' == Turned(x, 2 * g) && c' == Turned(c, 2 * g)
    requires xs == Turned(x, -2 * lo) && min == -lo && max == hi && (lo <= c <= hi ==> cs == Turned(c, -2 * lo))
    ensures var val := Fixed(code, lo, hi, c);
            (val.None? ==> lo <= c <= hi) && Settles(code, val, Holds(code, x', c'), xs, cs, min, max)
  {
  }

  /** What the constant or the unsigned comparison to put out says. */
  ghost predicate Settles(code: Code, val: Option<bool>, meant: bool, x: int, c: int, min: int, max: int) {
    meant == if val.None? then Holds(code, x, c)
             else if code.Eq? || code.Ne? then val.value
             else if code.Lt? || code.Ge? then Holds(code, x, min)
             else Holds(code, x, max)
  }

  /** `c` is the constant of an unsigned comparison, read as signed. */
  lemma ReversedIsRight(code: Code, t: Type, res: Type, x: int, c: int)
    requires Proper(t) && Proper(res) && t.prec < res.prec && Fits(x, t) && Fits(c, Type(res.prec, false))
    requires !t.unsigned && res.unsigned
    ensures var u := Type(t.prec, true);
            var val := Fixed(code, Min(t), Max(t), c);
            && (val.None? ==> Fits(c, t))
            && Settles(code, val, Holds(code, Wrap(res, x), Turned(c, 2 * Pow2(res.prec - 1))), Wrap(u, x),
                       if Fits(c, t) then Wrap(u, c) else 0, Wrap(u, Min(t)), Wrap(u, Max(t)))
  {
    var u, g := Type(t.prec, true), Pow2(res.prec - 1);
    Widens(t, res);
    AsTurned(t, res, x);
    AsTurnedHere(t, x);
    assert Wrap(u, Min(t)) == -Min(t) && Wrap(u, Max(t)) == Max(t) by {
      AsTurnedHere(t, Min(t));
      AsTurnedHere(t, Max(t));
    }
    var cs := if Fits(c, t) then Wrap(u, c) else 0;
    assert Fits(c, t) ==> cs == Turned(c, -2 * Min(t)) by {
      if Fits(c, t) { AsTurnedHere(t, c); }
    }
    ReversedOrder(code, Min(t), Max(t), g, x, c, Wrap(res, x), Turned(c, 2 * g), Wrap(u, x), cs,
        Wrap(u, Min(t)), Wrap(u, Max(t)));
  }

  lemma AsTurnedHere(t: Type, x: int)
    requires Proper(t) && !t.unsigned && Fits(x, t)
    ensures Wrap(Type(t.prec, true), x) == Turned(x, -2 * Min(t))
  {
    SignExtendedOrder(t, Type(t.prec, true), x);
  }

  lemma AsTurned(t: Type, res: Type, x: int)
    requires Proper(t) && Proper(res) && t.prec <= res.prec && !t.unsigned && res.unsigned && Fits(x, t)
    ensures Wrap(res, x) == Turned(x, 2 * Pow2(res.prec - 1))
  {
    SignExtendedOrder(t, res, x);
  }

  /** The bounds of a narrower type, and a constant, in the signed type of the same width. */
  lemma BoundsKept(t: Type, res: Type)
    requires Proper(t) && Proper(res) && t.prec < res.prec && (t.unsigned || !res.unsigned)
    ensures Wrap(res, Min(t)) == Min(t) && Wrap(res, Max(t)) == Max(t)
  {
    Widens(t, res);
    WrapFixed(res, Min(t));
    WrapFixed(res, Max(t));
  }

  lemma ReadAsSigned(res: Type, v: int)
    requires Proper(res) && res.unsigned && -Pow2(res.prec) <= v < Pow2(res.prec)
    ensures Wrap(res, v) == Turned(Wrap(Type(res.prec, false), v), 2 * Pow2(res.prec - 1))
  {
    WrapNear(Type(res.prec, false), v);
    WrapNear(res, v);
  }

  /** Two operands extended alike keep their order in any width that holds both. */
  lemma AlikeIsRight(code: Code, t: Type, u: Type, w: Type, res: Type, x: int, y: int)
    requires Proper(t) && Proper(u) && Proper(w) && Proper(res) && t.unsigned == u.unsigned
    requires t.prec <= w.prec && u.prec <= w.prec && w.prec < res.prec && w.unsigned == (t.unsigned || res.unsigned)
    requires Fits(x, t) && Fits(y, u)
    ensures Holds(code, Wrap(w, x), Wrap(w, y)) == Holds(code, Wrap(res, x), Wrap(res, y))
  {
    OneExtension(t, w, res, x);
    OneExtension(u, w, res, y);
    Widens(w, res);
  }

  lemma OneExtension(t: Type, w: Type, res: Type, x: int)
    requires Proper(t) && Proper(w) && Proper(res) && t.prec <= w.prec < res.prec &&
        w.unsigned == (t.unsigned || res.unsigned)
    requires Fits(x, t)
    ensures if x < 0 && w.unsigned then Wrap(w, x) == x + Pow2(w.prec) >= Pow2(w.prec - 1) &&
        Wrap(res, x) == x + Pow2(res.prec)
            else Wrap(w, x) == x && Wrap(res, x) == x && (w.unsigned && !t.unsigned ==> x < Pow2(w.prec - 1))
  {
    Widens(t, w);
    Widens(t, res);
    Widens(w, res);
    WrapNear(w, x);
    WrapNear(res, x);
    assert Pow2(t.prec) == 2 * Pow2(t.prec - 1) && Pow2(w.prec) == 2 * Pow2(w.prec - 1);
  }

  // ----- the theorem -----

  /** The outcome is a comparison of well-formed operands of one type, and it
      answers as the comparison that was written. */
  ghost predicate Right(o: Outcome, meant: bool, env: Env) { Sensible(o) && Answer(o, env) == meant }

  lemma WithConstantIsRight(code: Code, x: Operand, c: Expr, res: Type, env: Env)
    requires GoodOperand(x, res) && WellFormed(c) && c.Const? && TypeOf(x.prim).prec < res.prec
    requires TypeOf(c).prec <= res.prec && Extends(x, res, env)
    ensures Right(WithConstant(code, x, c, res), Meant(code, x.op, c, res, env), env)
  {
    var t, v, r := Type(TypeOf(x.prim).prec, x.uns), Value(c, env), Read(x.prim, x.uns, env);
    Widens(TypeOf(c), res);
    if res.unsigned && !x.uns {
      WithConstantReversed(code, x, c, res, env);
    } else {
      var res' := Type(res.prec, res.unsigned && x.uns);
      FixedIsRight(code, t, res, r, v);
      var c' := Convert(res', c);
      ConvertValue(res', c, env);
      ConvertValue(t, x.prim, env);
      ConvertValue(t, c', env);
      WrapFixed(t, Wrap(res, v));
    }
  }

  lemma WithConstantReversed(code: Code, x: Operand, c: Expr, res: Type, env: Env)
    requires GoodOperand(x, res) && WellFormed(c) && c.Const? && TypeOf(x.prim).prec < res.prec
    requires TypeOf(c).prec <= res.prec && Extends(x, res, env) && res.unsigned && !x.uns
    ensures Right(WithConstant(code, x, c, res), Meant(code, x.op, c, res, env), env)
  {
    var t, v, r := Type(TypeOf(x.prim).prec, false), Value(c, env), Read(x.prim, x.uns, env);
    var res' := Type(res.prec, false);
    Widens(TypeOf(c), res);
    BoundsKept(t, res');
    ReadAsSigned(res, v);
    ConvertValue(res', c, env);
    ReversedIsRight(code, t, res, r, Wrap(res', v));
    ReversedAnswer(code, x, c, res, env);
  }

  /** The comparison that is put out, in terms of the values involved. */
  lemma ReversedAnswer(code: Code, x: Operand, c: Expr, res: Type, env: Env)
    requires GoodOperand(x, res) && WellFormed(c) && c.Const? && TypeOf(x.prim).prec < res.prec && res.unsigned &&
        !x.uns
    ensures var t := Type(TypeOf(x.prim).prec, false);
            var (u, k) := (Type(t.prec, true), Value(Convert(Type(res.prec, false), c), env));
            var val := Fixed(code, Wrap(Type(res.prec, false), Min(t)), Wrap(Type(res.prec, false), Max(t)), k);
            var (o, r) := (WithConstant(code, x, c, res), Read(x.prim, false, env));
            && Sensible(o)
            && Settles(code, val, Answer(o, env), Wrap(u, r), Wrap(u, k), Wrap(u, Min(t)), Wrap(u, Max(t)))
  {
    var t := Type(TypeOf(x.prim).prec, false);
    var u, c' := Type(t.prec, true), Convert(Type(res.prec, false), c);
    ConvertValue(u, x.prim, env);
    Widens(TypeOf(x.prim), u);
    WrapAgain(u, t, Value(x.prim, env));
    ConvertValue(u, c', env);
    ConvertValue(u, Const(Min(t), t), env);
    ConvertValue(u, Const(Max(t), t), env);
    WrapFixed(t, Min(t));
    WrapFixed(t, Max(t));
  }

  lemma AlikeAnswers(code: Code, x: Operand, y: Operand, res: Type, env: Env)
    requires GoodOperand(x, res) && GoodOperand(y, res) && x.uns == y.uns
    requires TypeOf(x.prim).prec < res.prec && TypeOf(y.prim).prec < res.prec
    requires Extends(x, res, env) && Extends(y, res, env)
    ensures Right(Alike(code, x, y, res), Meant(code, x.op, y.op, res, env), env)
  {
    var p, q := TypeOf(x.prim).prec, TypeOf(y.prim).prec;
    var t, u := Type(p, x.uns), Type(q, y.uns);
    var w := Type(if p > q then p else q, x.uns || res.unsigned);
    ConvertValue(t, x.prim, env);
    ConvertValue(u, y.prim, env);
    ConvertValue(w, Convert(t, x.prim), env);
    ConvertValue(w, Convert(u, y.prim), env);
    AlikeIsRight(code, t, u, w, res, Read(x.prim, x.uns, env), Read(y.prim, y.uns, env));
  }

  lemma NominalAnswers(code: Code, op0: Expr, op1: Expr, res: Type, env: Env)
    requires Proper(res) && WellFormed(op0) && WellFormed(op1)
    ensures Right(Nominal(code, op0, op1, res), Meant(code, op0, op1, res, env), env)
  {
    ConvertValue(res, op0, env);
    ConvertValue(res, op1, env);
    WrapFixed(res, 0);
  }

  lemma SwapMeans(code: Code, a: int, b: int)
    ensures Holds(Swapped(code), b, a) == Holds(code, a, b)
  {
  }

  /** Whatever the widths, the signedness and the operator, the constant or the
      comparison that shorten_compare gives answers as the comparison in the
      common type does, at all values if the operands' conversions compose, and
      otherwise at those without the top bit. */
  lemma ShortenPreserves(code: Code, op0: Expr, op1: Expr, res: Type, env: Env)
    requires Proper(res) && WellFormed(op0) && WellFormed(op1)
    requires TypeOf(op0).prec <= res.prec && TypeOf(op1).prec <= res.prec
    requires (Direct(op0, res) || !TopBit(op0, env)) && (Direct(op1, res) || !TopBit(op1, env))
    ensures Right(Shorten(code, op0, op1, res), Meant(code, op0, op1, res, env), env)
  {
    NarrowedExtends(op0, res, env);
    NarrowedExtends(op1, res, env);
    NarrowedGood(op0, res);
    NarrowedGood(op1, res);
    SwapMeans(code, Wrap(res, Value(op0, env)), Wrap(res, Value(op1, env)));
    NarrowIsRight(code, Narrowed(op0, res), Narrowed(op1, res), res, env);
    NarrowIsRight(Swapped(code), Narrowed(op1, res), Narrowed(op0, res), res, env);
  }

  lemma NarrowIsRight(code: Code, x: Operand, y: Operand, res: Type, env: Env)
    requires GoodOperand(x, res) && GoodOperand(y, res) && (y.prim.Const? ==> y.op == y.prim)
    requires TypeOf(x.prim).prec < res.prec ==> Extends(x, res, env)
    requires TypeOf(y.prim).prec < res.prec ==> Extends(y, res, env)
    ensures Right(Narrow(code, x, y, res), Meant(code, x.op, y.op, res, env), env)
  {
    if y.prim.Const? && TypeOf(x.prim).prec < res.prec {
      WithConstantIsRight(code, x, y.prim, res, env);
    } else if x.uns == y.uns && TypeOf(x.prim).prec < res.prec && TypeOf(y.prim).prec < res.prec {
      AlikeAnswers(code, x, y, res, env);
    } else {
      NominalAnswers(code, x.op, y.op, res, env);
    }
  }

  // ----- exactly when -----

  /** Widening a value with the top bit to the other signedness and then again
      is not widening it at once. */
  lemma TopBitMoves(t: Type, u: Type, res: Type, x: int)
    requires Proper(t) && Proper(u) && Proper(res) && t.prec <= u.prec < res.prec && Fits(x, t)
    requires t.unsigned != u.unsigned && (t.unsigned ==> t.prec == u.prec) && (x < 0 || x >= Pow2(t.prec - 1))
    ensures Wrap(res, Wrap(u, x)) != Wrap(res, x)
  {
    Widens(t, u);
    Widens(u, res);
    WrapNear(u, x);
    WrapNear(res, x);
    WrapNear(res, Wrap(u, x));
  }

  /** The operand as it is seen: its narrower form, converted by sign or zero extension. */
  function AsSeen(o: Operand): Operand
    requires WellFormed(o.prim)
  {
    o.(op := Convert(Type(TypeOf(o.prim).prec, o.uns), o.prim))
  }

  /** An operand that is widened to a type of the other signedness and then
      widened again, at a value with the top bit: it is taken to equal the
      constant that it was before it was widened. */
  lemma TwiceWidenedFails(op: Expr, res: Type, env: Env)
    requires Proper(res) && WellFormed(op) && TypeOf(op).prec <= res.prec && !Direct(op, res) && TopBit(op, env)
    ensures var (prim, uns) := Strip(op, false, true);
            var k := Const(Seen(op, env), Type(TypeOf(prim).prec, uns));
            WellFormed(k) && TypeOf(k).prec <= res.prec && Direct(k, res)
            && !Right(Shorten(Eq, op, k, res), Meant(Eq, op, k, res, env), env)
  {
    NarrowedGood(op, res);
    NarrowerExtends(op, env);
    var o, x := Narrowed(op, res), Seen(op, env);
    var t := Type(TypeOf(o.prim).prec, o.uns);
    var k := Const(x, t);
    WrapFixed(t, x);
    NarrowedGood(k, res);
    NarrowedExtends(k, res, env);
    var f := AsSeen(o);
    ConvertValue(t, o.prim, env);
    assert Value(k, env) == x == Value(f.op, env);
    TopBitMoves(t, TypeOf(op), res, x);
    assert !Meant(Eq, op, k, res, env);
    if IsConstant(o.prim) && !IsZero(k) {
      NarrowIsRight(Eq, Narrowed(k, res), f, res, env);
      assert Shorten(Eq, op, k, res) == Alike(Eq, Narrowed(k, res), f, res);
    } else {
      NarrowIsRight(Eq, f, Narrowed(k, res), res, env);
      assert Shorten(Eq, op, k, res) == WithConstant(Eq, f, k, res);
    }
  }

  /** An operand is handled soundly, whatever it is compared with, exactly if
      its conversions compose or its narrower form never has the top bit. */
  lemma ShortenSoundIff(op: Expr, res: Type)
    requires Proper(res) && WellFormed(op) && TypeOf(op).prec <= res.prec
    ensures Direct(op, res) || (forall env: Env :: !TopBit(op, env)) <==>
            (forall code: Code, other: Expr, env: Env ::
               WellFormed(other) && TypeOf(other).prec <= res.prec && Direct(other, res) ==>
               Right(Shorten(code, op, other, res), Meant(code, op, other, res, env), env))
  {
    if Direct(op, res) || forall env: Env :: !TopBit(op, env) {
      forall code: Code, other: Expr, env: Env
        | WellFormed(other) && TypeOf(other).prec <= res.prec && Direct(other, res)
        ensures Right(Shorten(code, op, other, res), Meant(code, op, other, res, env), env)
      {
        ShortenPreserves(code, op, other, res, env);
      }
    } else {
      var env: Env :| TopBit(op, env);
      TwiceWidenedFails(op, res, env);
    }
  }

  /** A signed variable converted to a wider unsigned type and compared in a
      still wider one, such as a signed char as unsigned int with a long long. */
  lemma SignedAsUnsignedFails(op: Expr, res: Type)
    requires op.Nop? && op.to.unsigned && op.inner.Var? && !op.inner.varType.unsigned
    requires 0 < op.inner.varType.prec < op.to.prec < res.prec
    ensures WellFormed(op)
    ensures var k := Const(-1, op.inner.varType);
            !Right(Shorten(Eq, op, k, res), Meant(Eq, op, k, res, _ => -1), _ => -1)
  {
    var env: Env := _ => -1;
    assert Strip(op, false, true) == Strip(op.inner, false, false) == (op.inner, false);
    WrapFixed(op.inner.varType, -1);
    assert Seen(op, env) == -1;
    TwiceWidenedFails(op, res, env);
  }
}
