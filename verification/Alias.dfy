/** Whether two memory references can overlap: rtx_equal_for_memref_p and
    memrefs_conflict_p, and the soundness of a negative answer. */
module Alias {
  import opened Arithmetic
  import opened AliasRtl

  // ----- equality of addresses -----

  /** rtx_equal_for_memref_p on pure expressions. */
  predicate MemrefEqual(t: Tables, x: Rtx, y: Rtx)
    requires Acyclic(t)
    decreases Weight(t, x) + Weight(t, y), Size(x) + Size(y)
  {
    CanonShrinks(t, x);
    CanonShrinks(t, y);
    var u, v := Canon(t, x), Canon(t, y);
    u == v ||
    match (u, v)
    case (Plus(a, b), Plus(c, d)) =>
      (MemrefEqual(t, a, c) && MemrefEqual(t, b, d)) || (MemrefEqual(t, a, d) && MemrefEqual(t, b, c))
    case (Mult(a, b), Mult(c, d)) =>
      (MemrefEqual(t, a, c) && MemrefEqual(t, b, d)) || (MemrefEqual(t, a, d) && MemrefEqual(t, b, c))
    case (Const(a), Const(c)) => MemrefEqual(t, a, c)
    case _ => false
  }

  lemma {:induction false} SumSameValue(env: Env, a: Rtx, b: Rtx, c: Rtx, d: Rtx)
    requires SameValue(env, a, c) && SameValue(env, b, d)
    ensures SameValue(env, Plus(a, b), Plus(c, d)) && SameValue(env, Plus(a, b), Plus(d, c))
  {
    forall o ensures Coef(env, Plus(a, b), o) == Coef(env, Plus(c, d), o) == Coef(env, Plus(d, c), o) {
      assert Coef(env, a, o) == Coef(env, c, o) && Coef(env, b, o) == Coef(env, d, o);
    }
  }

  lemma {:induction false} MultSameValue(env: Env, a: Rtx, b: Rtx, c: Rtx, d: Rtx)
    requires SameValue(env, a, c) && SameValue(env, b, d)
    ensures SameValue(env, Mult(a, b), Mult(c, d)) && SameValue(env, Mult(a, b), Mult(d, c))
  {
    forall o ensures Coef(env, Mult(a, b), o) == Coef(env, Mult(c, d), o) == Coef(env, Mult(d, c), o) {
      assert Coef(env, a, o) == Coef(env, c, o) && Coef(env, b, o) == Coef(env, d, o);
      Commutes(Coef(env, c, o), Off(env, d), Off(env, c), Coef(env, d, o));
    }
    Commutes(Off(env, c), Off(env, d), 0, 0);
  }

  lemma Commutes(u: int, v: int, w: int, z: int)
    ensures u * v + w * z == z * w + v * u && u * v == v * u
  {
  }

  /** Expressions the compiler takes for equal have equal values. */
  lemma {:induction false} MemrefEqualSound(t: Tables, env: Env, x: Rtx, y: Rtx)
    requires Acyclic(t) && Consistent(t, env)
    requires MemrefEqual(t, x, y)
    ensures SameValue(env, x, y)
    decreases Weight(t, x) + Weight(t, y), Size(x) + Size(y)
  {
    CanonShrinks(t, x);
    CanonShrinks(t, y);
    var u, v := Canon(t, x), Canon(t, y);
    if u != v {
      match (u, v)
      case (Plus(a, b), Plus(c, d)) =>
        if MemrefEqual(t, a, c) && MemrefEqual(t, b, d) {
          MemrefEqualSound(t, env, a, c);
          MemrefEqualSound(t, env, b, d);
          SumSameValue(env, a, b, c, d);
        } else {
          MemrefEqualSound(t, env, a, d);
          MemrefEqualSound(t, env, b, c);
          SumSameValue(env, a, b, d, c);
        }
      case (Mult(a, b), Mult(c, d)) =>
        if MemrefEqual(t, a, c) && MemrefEqual(t, b, d) {
          MemrefEqualSound(t, env, a, c);
          MemrefEqualSound(t, env, b, d);
          MultSameValue(env, a, b, c, d);
        } else {
          MemrefEqualSound(t, env, a, d);
          MemrefEqualSound(t, env, b, c);
          MultSameValue(env, a, b, d, c);
        }
      case (Const(a), Const(c)) =>
        MemrefEqualSound(t, env, a, c);
        ConstSameValue(env, a, c);
    }
    CanonicalSameValue(t, env, x, y);
  }

  lemma {:induction false} ConstSameValue(env: Env, a: Rtx, c: Rtx)
    requires SameValue(env, a, c)
    ensures SameValue(env, Const(a), Const(c))
  {
    forall o ensures Coef(env, Const(a), o) == Coef(env, Const(c), o) {
      assert Coef(env, a, o) == Coef(env, c, o);
    }
  }

  lemma {:induction false} CanonicalSameValue(t: Tables, env: Env, x: Rtx, y: Rtx)
    requires Acyclic(t) && Consistent(t, env) && SameValue(env, Canon(t, x), Canon(t, y))
    ensures SameValue(env, x, y)
  {
    CanonKeepsValue(t, env, x);
    CanonKeepsValue(t, env, y);
    forall o ensures Coef(env, x, o) == Coef(env, y, o) {
      assert Coef(env, Canon(t, x), o) == Coef(env, Canon(t, y), o);
    }
  }

  /** Equal parts make equal expressions, in either order. */
  lemma MemrefEqualCongruent(t: Tables, a: Rtx, b: Rtx, c: Rtx, d: Rtx)
    requires Acyclic(t) && MemrefEqual(t, a, c) && MemrefEqual(t, b, d)
    ensures MemrefEqual(t, Mult(a, b), Mult(c, d)) && MemrefEqual(t, Mult(a, b), Mult(d, c))
    ensures MemrefEqual(t, Const(a), Const(c))
    ensures CanonForm(t, Plus(a, b)) && CanonForm(t, Plus(c, d)) ==>
              MemrefEqual(t, Plus(a, b), Plus(c, d)) && MemrefEqual(t, Plus(a, b), Plus(d, c))
  {
    if CanonForm(t, Plus(a, b)) && CanonForm(t, Plus(c, d)) {
      FormIsFixed(t, Plus(a, b));
      FormIsFixed(t, Plus(c, d));
      FormIsFixed(t, Plus(d, c));
    }
  }

  // ----- the conflict test -----

  /** One call of memrefs_conflict_p: can `xsize` bytes at `x` meet `ysize`
      bytes at `y + c`? */
  datatype Query = Query(xsize: int, x: Rtx, ysize: int, y: Rtx, c: int)

  /** The address an auto-increment of a `size`-byte reference accesses
      (addr_side_effect_eval with no earlier references). */
  function SideEffectEval(x: Rtx, size: int): Rtx {
    match x
    case PreInc(a) => if size != 0 then Plus(a, ConstInt(size)) else a
    case PreDec(a) => if size != 0 then Plus(a, ConstInt(-size)) else a
    case PostInc(a) => a
    case PostDec(a) => a
    case _ => x
  }

  /** [0, xsize) meets [c, c + ysize). */
  predicate Meet(xsize: int, ysize: int, c: int) {
    (c >= 0 && xsize > c) || (c < 0 && ysize + c > 0)
  }

  predicate ScaleDivides(k: int, xsize: int, ysize: int, c: int) {
    k > 0 && xsize % k == 0 && ysize % k == 0 && c % k == 0
  }

  /** A division that makes a known size unknown or negative: a denial can then
      only be about different objects. */
  predicate ScaleHides(k: int, xsize: int, ysize: int) {
    k != 0 && xsize >= 0 && ysize >= 0 && (k < 0 || xsize < k || ysize < k)
  }

  /** Both addresses with side effects evaluated and canonicalised. */
  function Prepare(t: Tables, q: Query): Query
    requires Acyclic(t)
  {
    q.(x := Canon(t, SideEffectEval(q.x, q.xsize)), y := Canon(t, SideEffectEval(q.y, q.ysize)))
  }

  /** How one call ends: with an answer, or by passing the question on.  Every
      recursive call of memrefs_conflict_p returns its callee's answer.
      `exact` is false when sizes or offset were divided with a remainder and
      the sizes stayed positive, or were negative. */
  datatype Outcome = Done(conflict: bool) | Again(next: Query, exact: bool)

  function Invariant(t: Tables, x: Rtx): Rtx
    requires x.Reg?
  {
    if x.regno in t.invariants then t.invariants[x.regno] else x
  }

  /** The body of memrefs_conflict_p after both addresses are prepared. */
  function Step(t: Tables, q: Query): Outcome
    requires Acyclic(t)
  {
    var Query(xsize, x, ysize, y, c) := q;
    if MemrefEqual(t, x, y) then Done(xsize <= 0 || ysize <= 0 || Meet(xsize, ysize, c))
    else if x.Plus? && y.Plus? then StepSums(t, q)
    else if x.Plus? && x.right.ConstInt? then Again(q.(x := x.left, c := c - x.right.intval), true)
    else if y.Plus? && !x.Plus? then
      if y.right.ConstInt? then Again(q.(y := y.left, c := c + y.right.intval), true) else Done(true)
    else if x.Mult? && y.Mult? then StepProducts(t, q)
    else if x.Reg? && y.Reg? && (x.regno in t.invariants || y.regno in t.invariants) then
      Again(q.(x := Invariant(t, x), y := Invariant(t, y)), true)
    else if ConstantP(x) then StepConstants(t, q)
    else Done(true)
  }

  function StepSums(t: Tables, q: Query): Outcome
    requires Acyclic(t) && q.x.Plus? && q.y.Plus?
  {
    var Query(xsize, x, ysize, y, c) := q;
    if MemrefEqual(t, x.right, y.right) then Again(q.(x := x.left, y := y.left), true)
    else if MemrefEqual(t, x.left, y.left) then Again(q.(x := x.right, y := y.right), true)
    else if x.right.ConstInt? && y.right.ConstInt? then
      Again(q.(x := x.left, y := y.left, c := c - x.right.intval + y.right.intval), true)
    else if x.right.ConstInt? then Again(q.(x := x.left, c := c - x.right.intval), true)
    else if y.right.ConstInt? then Again(q.(y := y.left, c := c + y.right.intval), true)
    else Done(true)
  }

  function StepProducts(t: Tables, q: Query): Outcome
    requires Acyclic(t) && q.x.Mult? && q.y.Mult?
  {
    var Query(xsize, x, ysize, y, c) := q;
    var x1, y1 := Canon(t, x.right), Canon(t, y.right);
    var x0, y0 := Canon(t, x.left), Canon(t, y.left);
    if !MemrefEqual(t, x1, y1) then Done(true)
    else if MemrefEqual(t, x0, y0) then Done(xsize == 0 || ysize == 0 || Meet(xsize, ysize, c))
    else if !x1.ConstInt? then Done(true)
    else if x1.intval == 0 then Again(q.(x := x0, y := y0), false)     // the division traps
    else
      var k := x1.intval;
      Again(Query(TruncDiv(xsize, k), x0, TruncDiv(ysize, k), y0, TruncDiv(c, k)),
            ScaleDivides(k, xsize, ysize, c) || ScaleHides(k, xsize, ysize))
  }

  function StepConstants(t: Tables, q: Query): Outcome
    requires Acyclic(t) && ConstantP(q.x)
  {
    var Query(xsize, x, ysize, y, c) := q;
    if x.ConstInt? && y.ConstInt? then
      Done(xsize <= 0 || ysize <= 0 || Meet(xsize, ysize, c + (y.intval - x.intval)))
    else if x.Const? && y.Const? then Again(q.(x := Canon(t, x.inner), y := Canon(t, y.inner)), true)
    else if x.Const? then Again(q.(x := Canon(t, x.inner)), true)
    else if y.Const? then Again(q.(y := Canon(t, y.inner)), true)
    else if ConstantP(y) then
      Done(xsize < 0 || ysize < 0 ||
           (MemrefEqual(t, x, y) && (xsize == 0 || ysize == 0 || Meet(xsize, ysize, c))))
    else Done(true)
  }

  lemma SideEffectShrinks(t: Tables, x: Rtx, size: int)
    requires Acyclic(t)
    ensures SideEffectEval(x, size) == x || Weight(t, SideEffectEval(x, size)) < Weight(t, x)
    ensures Address(x) ==> Pure(SideEffectEval(x, size))
  {
    assert forall k :: Weight(t, ConstInt(k)) == 1;
  }

  ghost function QueryWeight(t: Tables, q: Query): nat
    requires Acyclic(t)
  {
    Weight(t, q.x) + Weight(t, q.y)
  }

  ghost function QuerySize(q: Query): nat { Size(q.x) + Size(q.y) }

  lemma PrepareShrinks(t: Tables, q: Query)
    requires Acyclic(t)
    ensures QueryWeight(t, Prepare(t, q)) < QueryWeight(t, q) || (Prepare(t, q).x == q.x && Prepare(t, q).y == q.y)
    ensures Address(q.x) && Address(q.y) ==> Pure(Prepare(t, q).x) && Pure(Prepare(t, q).y)
  {
    SideEffectShrinks(t, q.x, q.xsize);
    SideEffectShrinks(t, q.y, q.ysize);
    CanonShrinks(t, SideEffectEval(q.x, q.xsize));
    CanonShrinks(t, SideEffectEval(q.y, q.ysize));
  }

  /** The question passed on is smaller. */
  ghost predicate Shrinks(t: Tables, q: Query, o: Outcome)
    requires Acyclic(t)
  {
    o.Again? ==>
      var n := o.next;
      && (QueryWeight(t, n) < QueryWeight(t, q)
          || (QueryWeight(t, n) == QueryWeight(t, q) && QuerySize(n) < QuerySize(q)))
      && (Pure(q.x) && Pure(q.y) ==> Pure(n.x) && Pure(n.y))
  }

  lemma {:induction false} SumsShrink(t: Tables, q: Query)
    requires Acyclic(t) && q.x.Plus? && q.y.Plus?
    ensures Shrinks(t, q, StepSums(t, q))
  {
  }

  lemma {:induction false} ProductsShrink(t: Tables, q: Query)
    requires Acyclic(t) && q.x.Mult? && q.y.Mult?
    ensures Shrinks(t, q, StepProducts(t, q))
  {
    CanonShrinks(t, q.x.left);
    CanonShrinks(t, q.y.left);
  }

  lemma {:induction false} ConstantsShrink(t: Tables, q: Query)
    requires Acyclic(t) && ConstantP(q.x)
    ensures Shrinks(t, q, StepConstants(t, q))
  {
    if q.x.Const? { CanonShrinks(t, q.x.inner); }
    if q.y.Const? { CanonShrinks(t, q.y.inner); }
  }

  /** Passing the question on always makes it smaller. */
  lemma {:induction false} StepShrinks(t: Tables, q: Query)
    requires Acyclic(t)
    ensures Shrinks(t, q, Step(t, q))
  {
    if q.x.Plus? && q.y.Plus? {
      SumsShrink(t, q);
    } else if q.x.Mult? && q.y.Mult? {
      ProductsShrink(t, q);
    } else if ConstantP(q.x) {
      ConstantsShrink(t, q);
    }
  }

  /** `conflict` is the compiler's answer; `inexact` records that some step on
      the way to it was not exact. */
  datatype Answer = Answer(conflict: bool, inexact: bool)

  /** memrefs_conflict_p. */
  function Conflict(t: Tables, q: Query): Answer
    requires Acyclic(t)
    decreases QueryWeight(t, q), QuerySize(q)
  {
    PrepareShrinks(t, q);
    var p := Prepare(t, q);
    match Step(t, p)
    case Done(b) => Answer(b, false)
    case Again(n, exact) =>
      StepShrinks(t, p);
      var a := Conflict(t, n);
      Answer(a.conflict, a.inexact || !exact)
  }

  // ----- soundness -----

  /** The references cannot share a byte.  A zero size stands for an unknown
      one, so then only different objects will do; a negative size may touch
      bytes outside the reference, so it is never separate. */
  ghost predicate Separate(env: Env, q: Query) {
    && q.xsize >= 0 && q.ysize >= 0
    && (SameBase(env, q.x, q.y) ==>
          q.xsize > 0 && q.ysize > 0 && !Meet(q.xsize, q.ysize, Off(env, q.y) + q.c - Off(env, q.x)))
  }

  lemma SeparateCong(env: Env, q: Query, n: Query)
    requires SameValue(env, q.x, n.x) && SameValue(env, q.y, n.y)
    requires n == q.(x := n.x, y := n.y) && Separate(env, n)
    ensures Separate(env, q)
  {
    if SameBase(env, q.x, q.y) {
      forall o ensures Coef(env, n.x, o) == Coef(env, n.y, o) {
        assert Coef(env, q.x, o) == Coef(env, q.y, o);
      }
    }
  }

  /** Equal summands cancel. */
  lemma SeparateCancel(env: Env, q: Query, n: Query, r: Rtx, s: Rtx)
    requires q.x == Plus(n.x, r) || q.x == Plus(r, n.x)
    requires q.y == Plus(n.y, s) || q.y == Plus(s, n.y)
    requires SameValue(env, r, s)
    requires n == q.(x := n.x, y := n.y) && Separate(env, n)
    ensures Separate(env, q)
  {
    if SameBase(env, q.x, q.y) {
      forall o ensures Coef(env, n.x, o) == Coef(env, n.y, o) {
        assert Coef(env, q.x, o) == Coef(env, q.y, o);
        assert Coef(env, r, o) == Coef(env, s, o);
      }
    }
  }

  /** Constant summands move into the offset. */
  lemma SeparateShift(env: Env, q: Query, n: Query, dx: int, dy: int)
    requires (q.x == n.x && dx == 0) || q.x == Plus(n.x, ConstInt(dx))
    requires (q.y == n.y && dy == 0) || q.y == Plus(n.y, ConstInt(dy))
    requires n == q.(x := n.x, y := n.y, c := q.c - dx + dy) && Separate(env, n)
    ensures Separate(env, q)
  {
    assert Off(env, ConstInt(dx)) == dx && Off(env, ConstInt(dy)) == dy;
    if SameBase(env, q.x, q.y) {
      forall o ensures Coef(env, n.x, o) == Coef(env, n.y, o) {
        assert Coef(env, q.x, o) == Coef(env, q.y, o);
        assert Coef(env, ConstInt(dx), o) == 0 == Coef(env, ConstInt(dy), o);
      }
    }
  }

  lemma MeetScale(k: int, a: int, b: int, d: int)
    requires k > 0
    ensures Meet(k * a, k * b, k * d) <==> Meet(a, b, d)
  {
    assert k * d >= 0 <==> d >= 0;
    assert k * a - k * d == k * (a - d);
    assert k * (a - d) > 0 <==> a - d > 0;
    assert k * b + k * d == k * (b + d);
    assert k * (b + d) > 0 <==> b + d > 0;
  }

  lemma {:induction false} CoefScaled(env: Env, p: Rtx, r: Rtx, k: int, o: Object)
    requires SameValue(env, r, ConstInt(k))
    ensures Coef(env, Mult(p, r), o) == k * Coef(env, p, o)
    ensures Off(env, Mult(p, r)) == k * Off(env, p)
  {
    var z, w := Coef(env, r, o), Off(env, r);
    assert z == Coef(env, ConstInt(k), o) == 0;
    assert w == Off(env, ConstInt(k)) == k;
    TimesConstant(Coef(env, p, o), Off(env, p), z, w, k);
  }

  lemma TimesConstant(u: int, v: int, z: int, w: int, k: int)
    requires z == 0 && w == k
    ensures u * w + v * z == k * u && v * w == k * v
  {
  }

  lemma ExactQuotient(a: int, k: int)
    requires k > 0 && a % k == 0
    ensures a == k * TruncDiv(a, k)
    ensures (a > 0 <==> TruncDiv(a, k) > 0) && (a < 0 <==> TruncDiv(a, k) < 0)
  {
    var q := a / k;
    assert a == k * q;
    if a < 0 { DivUnique(-a, k, -q); }
  }

  lemma DivUnique(n: int, k: int, q: int)
    requires k > 0 && n == k * q
    ensures n / k == q
  {
    var d := q - n / k;
    assert k * d == n % k;
    assert d > 0 ==> k * d >= k;
    assert d < 0 ==> k * d <= -k;
  }

  lemma {:induction false} ScaledBase(env: Env, p: Rtx, q: Rtx, r: Rtx, s: Rtx, k: int)
    requires SameValue(env, r, ConstInt(k)) && SameValue(env, s, ConstInt(k)) && k != 0
    requires SameBase(env, Mult(p, r), Mult(q, s))
    ensures SameBase(env, p, q)
  {
    forall o ensures Coef(env, p, o) == Coef(env, q, o) {
      CoefScaled(env, p, r, k, o);
      CoefScaled(env, q, s, k, o);
      assert Coef(env, Mult(p, r), o) == Coef(env, Mult(q, s), o);
      CancelScale(k, Coef(env, p, o), Coef(env, q, o));
    }
  }

  lemma CancelScale(k: int, u: int, v: int)
    requires k != 0 && k * u == k * v
    ensures u == v
  {
    assert k * (u - v) == 0;
  }

  lemma MeetQuotient(k: int, xsize: int, ysize: int, c: int, p: int, q: int)
    requires ScaleDivides(k, xsize, ysize, c)
    ensures Meet(xsize, ysize, k * q + c - k * p)
            <==> Meet(TruncDiv(xsize, k), TruncDiv(ysize, k), q + TruncDiv(c, k) - p)
  {
    ExactQuotient(xsize, k);
    ExactQuotient(ysize, k);
    ExactQuotient(c, k);
    var e := q + TruncDiv(c, k) - p;
    assert k * q + c - k * p == k * e;
    MeetScale(k, TruncDiv(xsize, k), TruncDiv(ysize, k), e);
  }

  /** A size smaller than the scale becomes unknown, and a negative scale makes it unknown or negative. */
  lemma HiddenSize(k: int, n: int)
    requires k != 0 && n >= 0 && (k < 0 || n < k)
    ensures TruncDiv(n, k) <= 0
  {
    var q := n / k;
    assert n == k * q + n % k;
    assert q >= 1 && k > 0 ==> k * q >= k;
    assert q >= 1 && k < 0 ==> k * q <= k;
  }

  /** A common scale divides out when it divides the sizes and the offset, or hides a size. */
  lemma SeparateScale(env: Env, xsize: int, ysize: int, p: Rtx, q: Rtx, r: Rtx, s: Rtx, k: int, c: int)
    requires SameValue(env, r, ConstInt(k)) && SameValue(env, s, ConstInt(k))
    requires ScaleDivides(k, xsize, ysize, c) || ScaleHides(k, xsize, ysize)
    requires Separate(env, Query(TruncDiv(xsize, k), p, TruncDiv(ysize, k), q, TruncDiv(c, k)))
    ensures Separate(env, Query(xsize, Mult(p, r), ysize, Mult(q, s), c))
  {
    if ScaleDivides(k, xsize, ysize, c) {
      ExactQuotient(xsize, k);
      ExactQuotient(ysize, k);
    } else if k < 0 || xsize < k {
      HiddenSize(k, xsize);
    } else {
      HiddenSize(k, ysize);
    }
    if SameBase(env, Mult(p, r), Mult(q, s)) {
      ScaledBase(env, p, q, r, s, k);
      CoefScaled(env, p, r, k, Label(0));
      CoefScaled(env, q, s, k, Label(0));
      MeetQuotient(k, xsize, ysize, c, Off(env, p), Off(env, q));
    }
  }

  lemma {:induction false} EqualCanon(t: Tables, a: Rtx, b: Rtx)
    requires Acyclic(t)
    ensures MemrefEqual(t, Canon(t, a), Canon(t, b)) == MemrefEqual(t, a, b)
  {
    CanonIdempotent(t, a);
    CanonIdempotent(t, b);
    var u, v := Canon(t, a), Canon(t, b);
    assert Canon(t, u) == u && Canon(t, v) == v;
  }

  /** A question after Prepare. */
  ghost predicate Prepared(t: Tables, q: Query)
    requires Acyclic(t)
  {
    Pure(q.x) && Pure(q.y) && Canon(t, q.x) == q.x && Canon(t, q.y) == q.y
  }

  /** A step is sound: a denial is right, and so is a denial of the question
      passed on exactly. */
  ghost predicate SoundStep(env: Env, q: Query, o: Outcome) {
    match o
    case Done(b) => b || Separate(env, q)
    case Again(n, exact) => exact && Separate(env, n) ==> Separate(env, q)
  }

  lemma SumsSound(t: Tables, env: Env, q: Query)
    requires Acyclic(t) && Consistent(t, env) && q.x.Plus? && q.y.Plus?
    ensures SoundStep(env, q, StepSums(t, q))
  {
    var o := StepSums(t, q);
    if o.Again? && Separate(env, o.next) {
      if MemrefEqual(t, q.x.right, q.y.right) {
        MemrefEqualSound(t, env, q.x.right, q.y.right);
        SeparateCancel(env, q, o.next, q.x.right, q.y.right);
      } else if MemrefEqual(t, q.x.left, q.y.left) {
        MemrefEqualSound(t, env, q.x.left, q.y.left);
        SeparateCancel(env, q, o.next, q.x.left, q.y.left);
      } else {
        SeparateShift(env, q, o.next, if q.x.right.ConstInt? then q.x.right.intval else 0,
                      if q.y.right.ConstInt? then q.y.right.intval else 0);
      }
    }
  }

  lemma ProductsSound(t: Tables, env: Env, q: Query)
    requires Acyclic(t) && Consistent(t, env) && Prepared(t, q) && q.x.Mult? && q.y.Mult?
    requires !MemrefEqual(t, q.x, q.y)
    ensures SoundStep(env, q, StepProducts(t, q))
  {
    EqualCanon(t, q.x.left, q.y.left);
    EqualCanon(t, q.x.right, q.y.right);
    var o := StepProducts(t, q);
    if o.Again? && o.exact && Separate(env, o.next) {
      CanonKeepsValue(t, env, q.x.left);
      CanonKeepsValue(t, env, q.y.left);
      CanonKeepsValue(t, env, q.x.right);
      MemrefEqualSound(t, env, q.x.right, q.y.right);
      var n := o.next.(x := q.x.left, y := q.y.left);
      SeparateCong(env, n, o.next);
      SeparateScale(env, q.xsize, q.ysize, n.x, n.y, q.x.right, q.y.right, Canon(t, q.x.right).intval, q.c);
    }
  }

  lemma ConstantsSound(t: Tables, env: Env, q: Query)
    requires Acyclic(t) && Consistent(t, env) && ConstantP(q.x) && Canon(t, q.y) == q.y
    requires !MemrefEqual(t, q.x, q.y)
    ensures SoundStep(env, q, StepConstants(t, q))
  {
    if q.x.Const? { CanonKeepsValue(t, env, q.x.inner); }
    if q.y.Const? { CanonKeepsValue(t, env, q.y.inner); }
    var o := StepConstants(t, q);
    if o.Again? {
      if Separate(env, o.next) { SeparateCong(env, q, o.next); }
    } else if !o.conflict && !(q.x.ConstInt? && q.y.ConstInt?) {
      var obj := if q.x.ObjectRef? then q.x.obj else q.y.obj;
      assert Coef(env, q.x, obj) != Coef(env, q.y, obj);
    }
  }

  lemma StepSound(t: Tables, env: Env, q: Query)
    requires Acyclic(t) && Consistent(t, env) && Prepared(t, q)
    ensures SoundStep(env, q, Step(t, q))
  {
    var o := Step(t, q);
    if MemrefEqual(t, q.x, q.y) {
      MemrefEqualSound(t, env, q.x, q.y);
    } else if q.x.Plus? && q.y.Plus? {
      SumsSound(t, env, q);
    } else if q.x.Plus? || q.y.Plus? {
      if o.Again? && Separate(env, o.next) {
        SeparateShift(env, q, o.next, if q.x.Plus? then q.x.right.intval else 0,
                      if q.y.Plus? then q.y.right.intval else 0);
      }
    } else if q.x.Mult? && q.y.Mult? {
      ProductsSound(t, env, q);
    } else if q.x.Reg? && q.y.Reg? {
      if o.Again? && Separate(env, o.next) { SeparateCong(env, q, o.next); }
    } else if ConstantP(q.x) {
      ConstantsSound(t, env, q);
    }
  }

  // ----- the bytes that are accessed -----

  /** How often an object counts in the address that a reference accesses. */
  ghost function AccessCoef(env: Env, x: Rtx, o: Object): int {
    match x
    case PreInc(a) => Coef(env, a, o)
    case PreDec(a) => Coef(env, a, o)
    case PostInc(a) => Coef(env, a, o)
    case PostDec(a) => Coef(env, a, o)
    case _ => Coef(env, x, o)
  }

  /** The offset of its first byte: an increment or decrement by the size of the
      reference takes effect before the access or behind it. */
  ghost function AccessOff(env: Env, x: Rtx, size: int): int {
    match x
    case PreInc(a) => Off(env, a) + size
    case PreDec(a) => Off(env, a) - size
    case PostInc(a) => Off(env, a)
    case PostDec(a) => Off(env, a)
    case _ => Off(env, x)
  }

  /** Both references count every object alike, so they can meet. */
  ghost predicate OneBase(env: Env, q: Query) {
    forall o :: AccessCoef(env, q.x, o) == AccessCoef(env, q.y, o)
  }

  /** `b` is one of `size` bytes from `first` on. */
  predicate IsByte(b: int, first: int, size: int) { first <= b < first + size }

  /** Some byte is among `n` bytes of the first reference and `m` of the second. */
  ghost predicate ShareByte(env: Env, q: Query, n: int, m: int) {
    && OneBase(env, q)
    && exists b :: IsByte(b, AccessOff(env, q.x, q.xsize), n) && IsByte(b, AccessOff(env, q.y, q.ysize) + q.c, m)
  }

  /** The references share no byte; one of unknown size does not even have the
      base of the other, and a negative size rules nothing out. */
  ghost predicate Apart(env: Env, q: Query) {
    && q.xsize >= 0 && q.ysize >= 0
    && (q.xsize == 0 || q.ysize == 0 ==> !OneBase(env, q))
    && !ShareByte(env, q, q.xsize, q.ysize)
  }

  /** Two ranges meet if and only if they have a byte in common. */
  lemma MeetIff(xsize: int, ysize: int, first: int, second: int)
    requires xsize > 0 && ysize > 0
    ensures Meet(xsize, ysize, second - first) <==> exists b :: IsByte(b, first, xsize) && IsByte(b, second, ysize)
  {
    if Meet(xsize, ysize, second - first) {
      var b := if second >= first then second else first;
      assert IsByte(b, first, xsize) && IsByte(b, second, ysize);
    }
  }

  /** The references with auto-increments evaluated. */
  function Accessed(q: Query): Query {
    q.(x := SideEffectEval(q.x, q.xsize), y := SideEffectEval(q.y, q.ysize))
  }

  lemma {:induction false} EvalAccesses(env: Env, x: Rtx, size: int)
    ensures forall o :: Coef(env, SideEffectEval(x, size), o) == AccessCoef(env, x, o)
    ensures Off(env, SideEffectEval(x, size)) == AccessOff(env, x, size)
  {
    assert Off(env, ConstInt(size)) == size && Off(env, ConstInt(-size)) == -size;
    forall o ensures Coef(env, SideEffectEval(x, size), o) == AccessCoef(env, x, o) {
      assert Coef(env, ConstInt(size), o) == 0 == Coef(env, ConstInt(-size), o);
    }
  }

  /** The evaluated references are separate exactly if the bytes accessed are apart. */
  lemma {:induction false} SeparateIsApart(env: Env, q: Query)
    ensures Separate(env, Accessed(q)) <==> Apart(env, q)
  {
    EvalAccesses(env, q.x, q.xsize);
    EvalAccesses(env, q.y, q.ysize);
    var a := Accessed(q);
    forall o ensures (Coef(env, a.x, o) == Coef(env, a.y, o)) == (AccessCoef(env, q.x, o) == AccessCoef(env, q.y, o)) {
      assert Coef(env, SideEffectEval(q.x, q.xsize), o) == AccessCoef(env, q.x, o);
      assert Coef(env, SideEffectEval(q.y, q.ysize), o) == AccessCoef(env, q.y, o);
    }
    assert SameBase(env, a.x, a.y) <==> OneBase(env, q);
    if q.xsize > 0 && q.ysize > 0 {
      MeetIff(q.xsize, q.ysize, AccessOff(env, q.x, q.xsize), AccessOff(env, q.y, q.ysize) + q.c);
    }
  }

  lemma PrepareSound(t: Tables, env: Env, q: Query)
    requires Acyclic(t) && Consistent(t, env) && Address(q.x) && Address(q.y)
    ensures Prepared(t, Prepare(t, q))
    ensures Separate(env, Prepare(t, q)) ==> Apart(env, q)
  {
    var a := Accessed(q);
    PrepareShrinks(t, q);
    CanonIdempotent(t, a.x);
    CanonIdempotent(t, a.y);
    CanonKeepsValue(t, env, a.x);
    CanonKeepsValue(t, env, a.y);
    if Separate(env, Prepare(t, q)) {
      SeparateCong(env, a, Prepare(t, q));
      SeparateIsApart(env, q);
    }
  }

  lemma PureAccessed(q: Query)
    requires Pure(q.x) && Pure(q.y)
    ensures Accessed(q) == q
  {
  }

  /** An answer of "no conflict" is never wrong: in every environment that the
      tables describe, the two references access no byte in common. */
  lemma {:induction false} ConflictSound(t: Tables, env: Env, q: Query)
    requires Acyclic(t) && Consistent(t, env) && Address(q.x) && Address(q.y)
    requires Conflict(t, q) == Answer(false, false)
    ensures Apart(env, q)
    decreases QueryWeight(t, q), QuerySize(q)
  {
    PrepareShrinks(t, q);
    PrepareSound(t, env, q);
    var p := Prepare(t, q);
    StepSound(t, env, p);
    match Step(t, p)
    case Done(_) =>
    case Again(n, _) =>
      StepShrinks(t, p);
      ConflictSound(t, env, n);
      PureAccessed(n);
      SeparateIsApart(env, n);
  }

  /** No byte of the first reference is a byte of the second.  A size of zero
      is an unknown one: then the claim is for every extent. */
  lemma NoSharedByte(t: Tables, env: Env, q: Query, n: nat, m: nat)
    requires Acyclic(t) && Consistent(t, env) && Address(q.x) && Address(q.y)
    requires Conflict(t, q) == Answer(false, false)
    requires (q.xsize == 0 || n == q.xsize) && (q.ysize == 0 || m == q.ysize)
    ensures !ShareByte(env, q, n, m)
  {
    ConflictSound(t, env, q);
  }

  // ----- the other side: what the test must and must not report -----

  /** A negative size is always reported as a conflict. */
  lemma {:induction false} NegativeSizeConflicts(t: Tables, q: Query)
    requires Acyclic(t) && Address(q.x) && Address(q.y) && (q.xsize < 0 || q.ysize < 0)
    ensures Conflict(t, q).conflict || Conflict(t, q).inexact
    decreases QueryWeight(t, q), QuerySize(q)
  {
    PrepareShrinks(t, q);
    var p := Prepare(t, q);
    CanonIdempotent(t, SideEffectEval(q.x, q.xsize));
    CanonIdempotent(t, SideEffectEval(q.y, q.ysize));
    if p.x.Mult? && p.y.Mult? {
      EqualCanon(t, p.x.left, p.y.left);
      EqualCanon(t, p.x.right, p.y.right);
    }
    match Step(t, p)
    case Done(_) =>
    case Again(n, exact) =>
      StepShrinks(t, p);
      if exact {
        if p.x.Mult? && p.y.Mult? {
          ExactQuotient(q.xsize, Canon(t, p.x.right).intval);
          ExactQuotient(q.ysize, Canon(t, p.x.right).intval);
        }
        NegativeSizeConflicts(t, n);
      }
  }

  predicate NoMult(x: Rtx) {
    match x
    case Plus(a, b) => NoMult(a) && NoMult(b)
    case Mult(_, _) => false
    case Const(a) => NoMult(a)
    case PreInc(a) => NoMult(a)
    case PreDec(a) => NoMult(a)
    case PostInc(a) => NoMult(a)
    case PostDec(a) => NoMult(a)
    case _ => true
  }

  ghost predicate NoMultTables(t: Tables) {
    (forall r <- t.known :: NoMult(t.known[r])) && (forall r <- t.invariants :: NoMult(t.invariants[r]))
  }

  lemma {:induction false} AddConstantNoMult(x: Rtx, c: int, allConstant: bool)
    requires NoMult(x)
    ensures NoMult(AddConstant(x, c, allConstant))
    decreases x
  {
    match x
    case Const(a) => AddConstantNoMult(a, c, true);
    case Plus(a, b) =>
      if b.ConstInt? {
        AddConstantNoMult(a, c + b.intval, allConstant);
      } else if ConstantP(a) {
        AddConstantNoMult(a, c, false);
      } else if ConstantP(b) {
        AddConstantNoMult(b, c, false);
      }
    case _ =>
  }

  lemma {:induction false} CanonNoMult(t: Tables, x: Rtx)
    requires Acyclic(t) && NoMultTables(t) && NoMult(x)
    ensures NoMult(Canon(t, x))
    decreases Depth(t, x), x
  {
    match x
    case Reg(r) => if r in t.known { CanonNoMult(t, t.known[r]); }
    case Plus(a, b) =>
      CanonNoMult(t, a);
      CanonNoMult(t, b);
      var a', b' := Canon(t, a), Canon(t, b);
      if a'.ConstInt? { AddConstantNoMult(b', a'.intval, false); }
      if b'.ConstInt? { AddConstantNoMult(a', b'.intval, false); }
    case _ =>
  }

  lemma StepNoMult(t: Tables, q: Query)
    requires Acyclic(t) && NoMultTables(t) && NoMult(q.x) && NoMult(q.y) && Step(t, q).Again?
    ensures var o := Step(t, q); o.exact && NoMult(o.next.x) && NoMult(o.next.y)
  {
    if q.x.Const? { CanonNoMult(t, q.x.inner); }
    if q.y.Const? { CanonNoMult(t, q.y.inner); }
  }

  /** Without products every answer is exact, so soundness is unconditional. */
  lemma {:induction false} NoMultNeverInexact(t: Tables, q: Query)
    requires Acyclic(t) && NoMultTables(t) && NoMult(q.x) && NoMult(q.y)
    ensures !Conflict(t, q).inexact
    decreases QueryWeight(t, q), QuerySize(q)
  {
    PrepareShrinks(t, q);
    CanonNoMult(t, SideEffectEval(q.x, q.xsize));
    CanonNoMult(t, SideEffectEval(q.y, q.ysize));
    var p := Prepare(t, q);
    match Step(t, p)
    case Done(_) =>
    case Again(n, _) =>
      StepShrinks(t, p);
      StepNoMult(t, p);
      NoMultNeverInexact(t, n);
  }

  /** A register no table describes, or an object. */
  predicate Opaque(t: Tables, b: Rtx) {
    b.ObjectRef? || (b.Reg? && b.regno !in t.known && b.regno !in t.invariants)
  }

  /** The base plus a constant, as a sum or folded into a CONST. */
  predicate Based(x: Rtx, b: Rtx, i: int) {
    || (x == b && i == 0)
    || x == Plus(b, ConstInt(i))
    || (x.Const? && b.ObjectRef? && Folded(x.inner, b, i))
  }

  predicate Folded(x: Rtx, b: Rtx, i: int) { (x == b && i == 0) || x == Plus(b, ConstInt(i)) }

  /** What the answer has to be: within one base whether the ranges meet, and for
      two objects no. */
  ghost predicate Decides(q: Query, b: Rtx, i: int, d: Rtx, j: int, a: Answer) {
    && (b == d && q.xsize > 0 && q.ysize > 0 ==> a == Answer(Meet(q.xsize, q.ysize, j + q.c - i), false))
    && (b != d && b.ObjectRef? && d.ObjectRef? && q.xsize >= 0 && q.ysize >= 0 ==> a == Answer(false, false))
  }

  lemma {:induction false} BasedIsCanonical(t: Tables, x: Rtx, b: Rtx, i: int)
    requires Acyclic(t) && Opaque(t, b) && Based(x, b, i)
    ensures Canon(t, x) == x && (x.Const? ==> Canon(t, x.inner) == x.inner)
  {
    FormIsFixed(t, x);
    if x.Const? { FormIsFixed(t, x.inner); }
  }

  /** Equal addresses of this kind have one base and one offset. */
  lemma {:induction false} BasedEqual(t: Tables, x: Rtx, b: Rtx, i: int, y: Rtx, d: Rtx, j: int)
    requires Acyclic(t) && Opaque(t, b) && Opaque(t, d) && Based(x, b, i) && Based(y, d, j)
    ensures MemrefEqual(t, x, y) ==> b == d && i == j
  {
    BasedIsCanonical(t, x, b, i);
    BasedIsCanonical(t, y, d, j);
    BasesEqual(t, b, d);
    assert MemrefEqual(t, ConstInt(i), ConstInt(j)) ==> i == j;
    assert !MemrefEqual(t, b, ConstInt(j)) && !MemrefEqual(t, ConstInt(i), d);
    if x.Const? && y.Const? {
      assert MemrefEqual(t, x, y) == (x == y || MemrefEqual(t, x.inner, y.inner));
    }
  }

  lemma {:induction false} BasesEqual(t: Tables, b: Rtx, d: Rtx)
    requires Acyclic(t) && Opaque(t, b) && Opaque(t, d)
    ensures MemrefEqual(t, b, d) <==> b == d
  {
  }

  /** On constant offsets from objects, or from registers that nothing is known
      about, the test is exact. */
  lemma {:induction false} BasedExact(t: Tables, q: Query, b: Rtx, i: int, d: Rtx, j: int)
    requires Acyclic(t) && Opaque(t, b) && Opaque(t, d) && Based(q.x, b, i) && Based(q.y, d, j)
    ensures Decides(q, b, i, d, j, Conflict(t, q))
    decreases Size(q.x) + Size(q.y)
  {
    BasedIsCanonical(t, q.x, b, i);
    BasedIsCanonical(t, q.y, d, j);
    BasedEqual(t, q.x, b, i, q.y, d, j);
    BasesEqual(t, b, d);
    assert Prepare(t, q) == q;
    var o := Step(t, q);
    if b == d && q.x.Plus? && q.y.Plus? {
      if i != j {
        assert o == Again(q.(x := ConstInt(i), y := ConstInt(j)), true);
        assert Prepare(t, o.next) == o.next;
      }
    } else if (b == d || (b.ObjectRef? && d.ObjectRef?)) && o.Again? {
      var i' := if o.next.x == b then 0 else i;
      var j' := if o.next.y == d then 0 else j;
      BasedExact(t, o.next, b, i', d, j');
    }
  }

  /** How many summands an address has. */
  function Terms(x: Rtx): nat { if x.Plus? then Terms(x.left) + Terms(x.right) else 1 }

  lemma {:induction false} EqualTerms(t: Tables, x: Rtx, y: Rtx)
    requires Acyclic(t) && CanonForm(t, x) && CanonForm(t, y) && MemrefEqual(t, x, y)
    ensures Terms(x) == Terms(y)
    decreases x
  {
    FormIsFixed(t, x);
    FormIsFixed(t, y);
    if x != y && x.Plus? {
      if MemrefEqual(t, x.left, y.left) && MemrefEqual(t, x.right, y.right) {
        EqualTerms(t, x.left, y.left);
        EqualTerms(t, x.right, y.right);
      } else {
        EqualTerms(t, x.left, y.right);
        EqualTerms(t, x.right, y.left);
      }
    }
  }

  lemma {:induction false} TermsPositive(x: Rtx)
    ensures Terms(x) > 0
  {
    if x.Plus? { TermsPositive(x.left); }
  }

  /** A canonical address that does not end in a constant. */
  ghost predicate Base(t: Tables, b: Rtx) {
    Pure(b) && CanonForm(t, b) && !b.ConstInt? && !(b.Plus? && b.right.ConstInt?)
  }

  /** The base itself, or the base plus a constant. */
  predicate Offset(x: Rtx, b: Rtx, i: int) { (x == b && i == 0) || x == Plus(b, ConstInt(i)) }

  lemma {:induction false} BaseIsNotOffset(t: Tables, b: Rtx, i: int)
    requires Acyclic(t) && Base(t, b)
    ensures !MemrefEqual(t, b, Plus(b, ConstInt(i))) && !MemrefEqual(t, Plus(b, ConstInt(i)), b)
    ensures !MemrefEqual(t, b, ConstInt(i)) && !MemrefEqual(t, ConstInt(i), b)
    ensures b.Plus? ==> !MemrefEqual(t, b.left, b) && !MemrefEqual(t, b, b.left)
    ensures b.Plus? ==> !MemrefEqual(t, b.right, ConstInt(i)) && !MemrefEqual(t, ConstInt(i), b.right)
  {
    FormIsFixed(t, b);
    if MemrefEqual(t, b, Plus(b, ConstInt(i))) { EqualTerms(t, b, Plus(b, ConstInt(i))); }
    if MemrefEqual(t, Plus(b, ConstInt(i)), b) { EqualTerms(t, Plus(b, ConstInt(i)), b); }
    if b.Plus? {
      TermsPositive(b.right);
      FormIsFixed(t, b.right);
      if MemrefEqual(t, b.left, b) { EqualTerms(t, b.left, b); }
      if MemrefEqual(t, b, b.left) { EqualTerms(t, b, b.left); }
    }
  }

  lemma {:induction false} OffsetIsPrepared(t: Tables, q: Query, b: Rtx, i: int, j: int)
    requires Acyclic(t) && Base(t, b) && Offset(q.x, b, i) && Offset(q.y, b, j)
    ensures Prepare(t, q) == q && MemrefEqual(t, b, b)
  {
    FormIsFixed(t, q.x);
    FormIsFixed(t, q.y);
    FormIsFixed(t, b);
  }

  /** On two constant offsets from one base, whatever it is, the question comes
      down to whether the ranges meet. */
  lemma {:induction false} OffsetsDecided(t: Tables, q: Query, b: Rtx, i: int, j: int)
    requires Acyclic(t) && Base(t, b) && Offset(q.x, b, i) && Offset(q.y, b, j) && q.xsize > 0 && q.ysize > 0
    ensures Conflict(t, q) == Answer(Meet(q.xsize, q.ysize, j + q.c - i), false)
    decreases Size(q.x) + Size(q.y)
  {
    OffsetIsPrepared(t, q, b, i, j);
    BaseIsNotOffset(t, b, i);
    BaseIsNotOffset(t, b, j);
    assert MemrefEqual(t, ConstInt(i), ConstInt(j)) <==> i == j;
    if q.x == q.y {
    } else if q.x == b {
      assert Step(t, q) == Again(q.(y := b, c := q.c + j), true);
      OffsetsDecided(t, q.(y := b, c := q.c + j), b, 0, 0);
    } else if q.y == b {
      assert Step(t, q) == Again(q.(x := b, c := q.c - i), true);
      OffsetsDecided(t, q.(x := b, c := q.c - i), b, 0, 0);
    } else {
      var n := q.(x := ConstInt(i), y := ConstInt(j));
      assert Step(t, q) == Again(n, true);
      assert Prepare(t, n) == n;
    }
  }

  /** So the test is exact there: it reports a conflict exactly if some byte is shared. */
  lemma ExactOnCommonBase(t: Tables, env: Env, q: Query, b: Rtx, i: int, j: int)
    requires Acyclic(t) && Base(t, b) && Offset(q.x, b, i) && Offset(q.y, b, j) && q.xsize > 0 && q.ysize > 0
    ensures Conflict(t, q) == Answer(ShareByte(env, q, q.xsize, q.ysize), false)
  {
    OffsetsDecided(t, q, b, i, j);
    var k := Off(env, b);
    assert Off(env, ConstInt(i)) == i && Off(env, ConstInt(j)) == j;
    forall o ensures AccessCoef(env, q.x, o) == AccessCoef(env, q.y, o) {
      assert Coef(env, ConstInt(i), o) == 0 == Coef(env, ConstInt(j), o);
    }
    assert AccessOff(env, q.x, q.xsize) == k + i && AccessOff(env, q.y, q.ysize) == k + j;
    MeetIff(q.xsize, q.ysize, k + i, k + j + q.c);
  }

  /** Offsets from two different objects never conflict, however long. */
  lemma DistinctObjectsSeparate(t: Tables, p: Object, r: Object, xsize: nat, i: int, ysize: nat, j: int, c: int)
    requires Acyclic(t) && p != r
    ensures Conflict(t, Query(xsize, Plus(ObjectRef(p), ConstInt(i)), ysize, Plus(ObjectRef(r), ConstInt(j)), c))
            == Answer(false, false)
  {
    var q := Query(xsize, Plus(ObjectRef(p), ConstInt(i)), ysize, Plus(ObjectRef(r), ConstInt(j)), c);
    BasedExact(t, q, ObjectRef(p), i, ObjectRef(r), j);
  }

  /** Only what the addresses come to counts. */
  lemma {:induction false} OnlyPreparedCounts(t: Tables, q: Query)
    requires Acyclic(t) && Address(q.x) && Address(q.y)
    ensures Conflict(t, q) == Conflict(t, Prepare(t, q))
  {
    var p := Prepare(t, q);
    PrepareShrinks(t, q);
    CanonIdempotent(t, SideEffectEval(q.x, q.xsize));
    CanonIdempotent(t, SideEffectEval(q.y, q.ysize));
    PureAccessed(p);
    assert Prepare(t, p) == p;
  }

  /** A register whose value is known counts as what it holds. */
  lemma {:induction false} KnownValuesDecide(t: Tables, q: Query, b: Rtx, i: int, d: Rtx, j: int)
    requires Acyclic(t) && Opaque(t, b) && Opaque(t, d) && Address(q.x) && Address(q.y)
    requires Based(Prepare(t, q).x, b, i) && Based(Prepare(t, q).y, d, j)
    ensures Decides(q, b, i, d, j, Conflict(t, q))
  {
    OnlyPreparedCounts(t, q);
    BasedExact(t, Prepare(t, q), b, i, d, j);
  }

  /** A constant offset from an address that changes as known values are filled in
      is folded into the offset that is there. */
  lemma {:induction false} OffsetsFold(t: Tables, x: Rtx, c: int, b: Rtx, i: int)
    requires Acyclic(t) && Opaque(t, b) && Based(Canon(t, x), b, i) && Canon(t, x) != x
    ensures Based(Canon(t, Plus(x, ConstInt(c))), b, i + c)
    ensures Based(Canon(t, Plus(ConstInt(c), x)), b, i + c)
  {
    var y := Canon(t, x);
    var sum := Plus(b, ConstInt(i));
    forall all: bool
      ensures AddConstant(sum, c, all) == AddConstant(b, i + c, all) == Attach(b, i + c, all || b.ObjectRef?)
    {
      assert sum.right.intval == i;
    }
    assert y.Const? ==> AddConstant(y, c, false) == AddConstant(y.inner, c, true);
    assert Based(PlusConstant(y, c), b, i + c);
  }

  /** Two registers of unknown value that are invariants of the function count as
      what they were initialised from. */
  lemma {:induction false} InvariantsDecide(t: Tables, q: Query, b: Rtx, i: int, d: Rtx, j: int)
    requires Acyclic(t) && Opaque(t, b) && Opaque(t, d) && q.x.Reg? && q.y.Reg? && q.x != q.y
    requires q.x.regno !in t.known && q.y.regno !in t.known
    requires q.x.regno in t.invariants || q.y.regno in t.invariants
    requires Based(Canon(t, Invariant(t, q.x)), b, i) && Based(Canon(t, Invariant(t, q.y)), d, j)
    ensures Decides(q, b, i, d, j, Conflict(t, q))
  {
    var n := q.(x := Invariant(t, q.x), y := Invariant(t, q.y));
    assert Prepare(t, q) == q && Step(t, q) == Again(n, true);
    PureAccessed(n);
    KnownValuesDecide(t, n, b, i, d, j);
  }

  // ----- scaled indices: where truncation makes the test wrong -----

  /** The references i * k and (i + d) * k for a register i nothing is known about. */
  function ScaledPair(r: nat, k: int, d: int, xsize: int, ysize: int, c: int): Query {
    Query(xsize, Mult(Reg(r), ConstInt(k)), ysize, Mult(Plus(Reg(r), ConstInt(d)), ConstInt(k)), c)
  }

  lemma ScaledPairAnswer(t: Tables, r: nat, k: int, d: int, xsize: int, ysize: int, c: int)
    requires Acyclic(t) && Opaque(t, Reg(r)) && k != 0
    ensures var (p, q) := (TruncDiv(xsize, k), TruncDiv(ysize, k));
            Conflict(t, ScaledPair(r, k, d, xsize, ysize, c)).conflict
            == (p <= 0 || q <= 0 || Meet(p, q, TruncDiv(c, k) + d))
  {
    var q := ScaledPair(r, k, d, xsize, ysize, c);
    var sum := Plus(Reg(r), ConstInt(d));
    FormIsFixed(t, sum);
    assert Canon(t, Reg(r)) == Reg(r) && Canon(t, ConstInt(k)) == ConstInt(k);
    assert !MemrefEqual(t, Reg(r), sum) && !MemrefEqual(t, Reg(r), ConstInt(k));
    assert MemrefEqual(t, ConstInt(k), ConstInt(k));
    assert Prepare(t, q) == q && !MemrefEqual(t, q.x, q.y);
    var n := Step(t, q).next;
    assert n == Query(TruncDiv(xsize, k), Reg(r), TruncDiv(ysize, k), sum, TruncDiv(c, k));
    assert Prepare(t, n) == n;
    var m := Step(t, n).next;
    assert m == n.(y := Reg(r), c := TruncDiv(c, k) + d);
    assert Prepare(t, m) == m && MemrefEqual(t, m.x, m.y);
    assert Conflict(t, m) == Answer(m.xsize <= 0 || m.ysize <= 0 || Meet(m.xsize, m.ysize, m.c), false);
    assert Conflict(t, n).conflict == Conflict(t, m).conflict;
    assert Conflict(t, q).conflict == Conflict(t, n).conflict;
  }

  /** The bytes of a scaled pair meet exactly when [0, xsize) meets
      [k * d + c, k * d + c + ysize), whatever the index register holds. */
  lemma ScaledPairMeets(env: Env, r: nat, k: int, d: int, xsize: int, ysize: int, c: int)
    requires xsize > 0 && ysize > 0
    ensures var q := ScaledPair(r, k, d, xsize, ysize, c);
            Apart(env, q) <==> !Meet(xsize, ysize, k * d + c)
  {
    SeparateIsApart(env, ScaledPair(r, k, d, xsize, ysize, c));
    var q := ScaledPair(r, k, d, xsize, ysize, c);
    var sum := Plus(Reg(r), ConstInt(d));
    assert forall j :: Off(env, ConstInt(j)) == j;
    forall o ensures Coef(env, q.x, o) == Coef(env, q.y, o) {
      assert Coef(env, ConstInt(k), o) == 0 == Coef(env, ConstInt(d), o);
      assert Coef(env, sum, o) == Coef(env, Reg(r), o);
    }
    assert Off(env, sum) == Off(env, Reg(r)) + d;
    assert Off(env, q.y) - Off(env, q.x) == k * d by {
      assert (Off(env, Reg(r)) + d) * k - Off(env, Reg(r)) * k == d * k;
    }
  }

  /** A denial of this question, if made, is right. */
  ghost predicate DenialRight(t: Tables, env: Env, q: Query)
    requires Acyclic(t)
  {
    !Conflict(t, q).conflict ==> Apart(env, q)
  }

  lemma DenialRightIff(t: Tables, env: Env, r: nat, k: int, d: int, xsize: int, ysize: int, c: int)
    requires Acyclic(t) && Opaque(t, Reg(r)) && k != 0 && xsize > 0 && ysize > 0
    ensures var (p, q) := (TruncDiv(xsize, k), TruncDiv(ysize, k));
            DenialRight(t, env, ScaledPair(r, k, d, xsize, ysize, c)) <==>
            (Meet(xsize, ysize, k * d + c) ==> p <= 0 || q <= 0 || Meet(p, q, TruncDiv(c, k) + d))
  {
    ScaledPairAnswer(t, r, k, d, xsize, ysize, c);
    ScaledPairMeets(env, r, k, d, xsize, ysize, c);
  }

  /** Denials about scaled pairs are all right exactly when the scale divides
      both sizes and the offset, or hides a size so that nothing is denied. */
  lemma ScaledPairsSoundIff(t: Tables, env: Env, r: nat, k: int, xsize: int, ysize: int, c: int)
    requires Acyclic(t) && Opaque(t, Reg(r)) && k != 0 && xsize > 0 && ysize > 0
    ensures k < 0 || xsize < k || ysize < k || ScaleDivides(k, xsize, ysize, c) <==>
            forall d :: DenialRight(t, env, ScaledPair(r, k, d, xsize, ysize, c))
  {
    if k < 0 || xsize < k || ysize < k || ScaleDivides(k, xsize, ysize, c) {
      forall d ensures DenialRight(t, env, ScaledPair(r, k, d, xsize, ysize, c)) {
        DenialRightIff(t, env, r, k, d, xsize, ysize, c);
        if k < 0 || xsize < k {
          HiddenSize(k, xsize);
        } else if ysize < k {
          HiddenSize(k, ysize);
        } else {
          MeetQuotient(k, xsize, ysize, c, 0, d);
        }
      }
    } else {
      var d := TruncationWitness(k, xsize, ysize, c);
      DenialRightIff(t, env, r, k, d, xsize, ysize, c);
      QuotientAtLeastOne(xsize, k);
      QuotientAtLeastOne(ysize, k);
    }
  }

  /** Where a remainder is lost, some distance meets but is denied. */
  lemma TruncationWitness(k: int, xsize: int, ysize: int, c: int) returns (d: int)
    requires k > 0 && xsize >= k && ysize >= k && !ScaleDivides(k, xsize, ysize, c)
    ensures Meet(xsize, ysize, k * d + c)
    ensures !Meet(TruncDiv(xsize, k), TruncDiv(ysize, k), TruncDiv(c, k) + d)
  {
    var a, b, e := xsize / k, ysize / k, TruncDiv(c, k);
    TruncBounds(c, k);
    QuotientAtLeastOne(xsize, k);
    QuotientAtLeastOne(ysize, k);
    var late := c - k * e < xsize - k * a;
    d := if late then a - e else -b - e;
    Distribute(k, a, b, e);
  }

  lemma Distribute(k: int, a: int, b: int, e: int)
    ensures k * (a - e) == k * a - k * e && k * (-b - e) == -(k * b) - k * e
  {
  }

  lemma TruncBounds(c: int, k: int)
    requires k > 0
    ensures -k < c - k * TruncDiv(c, k) < k
    ensures c - k * TruncDiv(c, k) == 0 ==> c % k == 0
  {
    var e := TruncDiv(c, k);
    TruncRemainder(c, k);
    if c == k * e { DivUnique(c, k, e); }
  }

  lemma QuotientAtLeastOne(n: int, k: int)
    requires k > 0 && n >= k
    ensures n / k >= 1 && 0 <= n - k * (n / k) < k && k * (n / k) >= k
    ensures n - k * (n / k) == 0 ==> n % k == 0
  {
    assert n == k * (n / k) + n % k;
  }
}
