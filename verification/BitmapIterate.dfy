/** The three iteration macros of bitmap.h.  Each method returns the bit
    numbers for which the macro runs its body, in order. */
module BitmapIterate {
  import opened BitmapValues
  import opened Bitmaps

  predicate Increasing(s: seq<nat>) {
    forall i, j :: 0 <= i < j < |s| ==> s[i] < s[j]
  }

  predicate AllBelow(s: seq<nat>, n: nat) {
    forall i :: 0 <= i < |s| ==> s[i] < n
  }

  lemma Appended(s: seq<nat>, b: nat)
    requires Increasing(s) && AllBelow(s, b)
    ensures Increasing(s + [b]) && AllBelow(s + [b], b + 1)
    ensures forall x :: x in s + [b] <==> x in s || x == b
  {
  }

  /** The bit that is `bitNum` of word `wordNum` of element `indx`. */
  function BitAt(indx: nat, wordNum: nat, bitNum: nat): nat { indx * 64 + wordNum * 32 + bitNum }

  /** Visit the bits of one word from `bitNum` on; stop when none is left. */
  method ScanWord(indx: nat, wordNum: nat, w: Word, from: nat, seen: seq<nat>) returns (out: seq<nat>)
    requires wordNum < 2 && from <= 32 && forall n <- w :: n < 32
    requires Increasing(seen) && AllBelow(seen, BitAt(indx, wordNum, from))
    ensures Increasing(out) && AllBelow(out, BitAt(indx, wordNum, 32))
    ensures forall b: nat :: b in out <==>
              b in seen || (b / 32 == indx * 2 + wordNum && b % 32 in w && b % 32 >= from)
  {
    out := seen;
    var word := w;
    if word != {} {
      var bitNum := from;
      while bitNum < 32
        invariant from <= bitNum <= 32
        invariant Increasing(out) && AllBelow(out, BitAt(indx, wordNum, bitNum))
        invariant forall b: nat :: b in out <==>
                    b in seen || (b / 32 == indx * 2 + wordNum && b % 32 in w && from <= b % 32 < bitNum)
        invariant forall n :: n in word <==> n in w && !(from <= n < bitNum)
      {
        if bitNum in word {
          assert forall n <- w :: n > bitNum ==> n in word;
          word := word - {bitNum};
          assert forall n <- w :: n > bitNum ==> n in word;
          var bit := BitAt(indx, wordNum, bitNum);
          Appended(out, bit);
          SameWord(indx, wordNum, bitNum);
          out := out + [bit];
          if word == {} {
            break;
          }
        }
        bitNum := bitNum + 1;
      }
    }
  }

  lemma SameWord(indx: nat, wordNum: nat, n: nat)
    requires wordNum < 2 && n < 32
    ensures var bit := BitAt(indx, wordNum, n); bit / 32 == indx * 2 + wordNum && bit % 32 == n
    ensures forall b: nat :: b / 32 == indx * 2 + wordNum && b % 32 == n ==> b == BitAt(indx, wordNum, n)
  {
  }

  /** Visit the bits of one element from word `wordNum`, bit `bitNum` on. */
  method ScanElement(v: Val, wordNum: nat, bitNum: nat, seen: seq<nat>) returns (out: seq<nat>)
    requires wordNum < 2 && bitNum < 32 && (forall n <- v.bits0 :: n < 32) && (forall n <- v.bits1 :: n < 32)
    requires Increasing(seen) && AllBelow(seen, BitAt(v.indx, wordNum, bitNum))
    ensures Increasing(out) && AllBelow(out, (v.indx + 1) * 64)
    ensures forall b: nat :: b in out <==> b in seen || (v.Has(b) && b >= BitAt(v.indx, wordNum, bitNum))
  {
    out := seen;
    var w, from := wordNum, bitNum;
    while w < 2
      invariant wordNum <= w <= 2 && from == (if w == wordNum then bitNum else 0)
      invariant Increasing(out) && AllBelow(out, BitAt(v.indx, w, from))
      invariant forall b: nat :: b in out <==>
                  b in seen || (v.Has(b) && BitAt(v.indx, wordNum, bitNum) <= b < BitAt(v.indx, w, from))
    {
      ghost var before := out;
      out := ScanWord(v.indx, w, v.Bits(w), from, out);
      forall b: nat ensures b in out <==>
                       b in seen || (v.Has(b) && BitAt(v.indx, wordNum, bitNum) <= b < BitAt(v.indx, w + 1, 0)) {
        WordOfElement(v, w, from, b);
      }
      w, from := w + 1, 0;
    }
  }

  lemma WordOfElement(v: Val, w: nat, from: nat, b: nat)
    requires w < 2 && from < 32
    ensures (b / 32 == v.indx * 2 + w && b % 32 in v.Bits(w) && b % 32 >= from)
            <==> v.Has(b) && BitAt(v.indx, w, from) <= b < BitAt(v.indx, w + 1, 0)
  {
    BitWhole(b);
    assert b / 32 == IndxOf(b) * 2 + WordNum(b);
  }

  // ----- the macros -----

  /** What each macro is to visit. */
  predicate Wanted(op: BitOp, vs: seq<Val>, ws: seq<Val>, min: nat, b: nat) {
    b >= min && ApplyBit(op, HasBit(vs, b), HasBit(ws, b))
  }

  /** The first element at or above `indx`: the opening loop of every macro. */
  method SkipBelow(ghost s: seq<Element>, ghost vs: seq<Val>, start: Element?, ghost from: nat, indx: nat)
    returns (ptr: Element?, ghost k: nat)
    requires Linked(s) && Mirrors(s, vs) && Canonical(vs) && from <= |s|
    requires start == (if from < |s| then s[from] else null)
    ensures from <= k <= |s| && ptr == (if k < |s| then s[k] else null)
    ensures forall i :: from <= i < k ==> vs[i].indx < indx
    ensures forall i :: k <= i < |vs| ==> vs[i].indx >= indx
  {
    ptr, k := start, from;
    while ptr != null && ptr.indx < indx
      invariant from <= k <= |s| && ptr == (if k < |s| then s[k] else null)
      invariant forall i :: from <= i < k ==> vs[i].indx < indx
      decreases |s| - k
    {
      assert s[k].Value() == vs[k];
      NextOf(s, k);
      ptr := ptr.next;
      k := k + 1;
    }
    if k < |s| { assert s[k].Value() == vs[k]; }
  }

  /** The state of a macro about to look at element `k` of the first list. */
  ghost predicate AtElement(op: BitOp, vs: seq<Val>, ws: seq<Val>, min: nat, k: nat, wordNum: nat, bitNum: nat,
      out: seq<nat>) {
    && k <= |vs| && wordNum < 2 && bitNum < 32 && Increasing(out)
    && (forall b: nat :: b in out <==> HasBit(vs[..k], b) && Wanted(op, vs, ws, min, b))
    && (k < |vs| ==>
          && vs[k].indx >= IndxOf(min)
          && AllBelow(out, BitAt(vs[k].indx, wordNum, bitNum))
          && BitAt(vs[k].indx, wordNum, bitNum) == if vs[k].indx == IndxOf(min) then min else vs[k].indx * 64)
  }

  lemma AtFirst(op: BitOp, vs: seq<Val>, ws: seq<Val>, min: nat, k: nat, wordNum: nat, bitNum: nat)
    requires k <= |vs| && Canonical(vs)
    requires forall i :: 0 <= i < k ==> vs[i].indx < IndxOf(min)
    requires forall i :: k <= i < |vs| ==> vs[i].indx >= IndxOf(min)
    requires if k < |vs| && vs[k].indx != IndxOf(min) then wordNum == 0 && bitNum == 0
             else wordNum == WordNum(min) && bitNum == BitNum(min)
    ensures AtElement(op, vs, ws, min, k, wordNum, bitNum, [])
  {
    BitWhole(min);
    forall b: nat | HasBit(vs[..k], b) ensures b < min {
      var i :| 0 <= i < k && vs[..k][i].Has(b);
      BitWhole(b);
    }
  }

  /** The values visited in element `k`: what `v` holds at or above `min`. */
  lemma AfterElement(op: BitOp, vs: seq<Val>, ws: seq<Val>, min: nat, k: nat, wordNum: nat, bitNum: nat,
                     seen: seq<nat>, v: Val, out: seq<nat>)
    requires Canonical(vs) && AtElement(op, vs, ws, min, k, wordNum, bitNum, seen) && k < |vs|
    requires v.indx == vs[k].indx
    requires forall b: nat ::
               v.Has(b) <==> IndxOf(b) == v.indx && ApplyBit(op, HasBit(vs, b), HasBit(ws, b)) && vs[k].Has(b)
    requires Increasing(out) && AllBelow(out, (v.indx + 1) * 64)
    requires forall b: nat :: b in out <==> b in seen || (v.Has(b) && b >= BitAt(v.indx, wordNum, bitNum))
    ensures AtElement(op, vs, ws, min, k + 1, 0, 0, out)
  {
    assert vs[..k + 1] == vs[..k] + [vs[k]];
    forall b: nat ensures b in out <==> HasBit(vs[..k + 1], b) && Wanted(op, vs, ws, min, b) {
      BitWhole(b);
      PrefixOne(vs, k, b);
    }
    if k + 1 < |vs| {
      assert vs[k].indx < vs[k + 1].indx;
      assert (v.indx + 1) * 64 <= BitAt(vs[k + 1].indx, 0, 0);
    }
  }

  lemma PrefixOne(vs: seq<Val>, k: nat, b: nat)
    requires k < |vs|
    ensures HasBit(vs[..k + 1], b) <==> HasBit(vs[..k], b) || vs[k].Has(b)
  {
    if HasBit(vs[..k], b) {
      var i :| 0 <= i < k && vs[..k][i].Has(b);
      assert vs[..k + 1][i].Has(b);
    }
    if vs[k].Has(b) { assert vs[..k + 1][k].Has(b); }
  }

  /** The element a macro looks at, as far as it is wanted. */
  lemma WantedInElement(op: BitOp, vs: seq<Val>, k: nat, ws: seq<Val>, j: nat, b: nat)
    requires Canonical(vs) && Canonical(ws) && k < |vs| && j <= |ws|
    requires forall i :: 0 <= i < j ==> ws[i].indx < vs[k].indx
    requires forall i :: j <= i < |ws| ==> ws[i].indx >= vs[k].indx
    requires op == And || op == AndCompl
    ensures var v := Combined(op, vs[k].indx, vs[k], ValAt(ws, j, vs[k].indx));
            v.Has(b) <==> IndxOf(b) == v.indx && ApplyBit(op, HasBit(vs, b), HasBit(ws, b)) && vs[k].Has(b)
  {
    var x := vs[k].indx;
    if IndxOf(b) == x {
      CombinedHas(op, x, vs[k], ValAt(ws, j, x), b);
      if HasBit(ws, b) {
        var i :| 0 <= i < |ws| && ws[i].Has(b);
        assert i >= j;
        assert j < i ==> ws[j].indx < ws[i].indx;
      }
      if j < |ws| && ws[j].Has(b) { assert HasBit(ws, b); }
      if vs[k].Has(b) { assert HasBit(vs, b); }
    }
  }

  lemma AtEnd(op: BitOp, vs: seq<Val>, ws: seq<Val>, min: nat, k: nat, wordNum: nat, bitNum: nat, out: seq<nat>)
    requires AtElement(op, vs, ws, min, k, wordNum, bitNum, out) && (op == And || op == AndCompl)
    requires forall b: nat :: Wanted(op, vs, ws, min, b) ==> HasBit(vs[..k], b)
    ensures Increasing(out) && forall b: nat :: b in out <==> Wanted(op, vs, ws, min, b)
  {
  }

  lemma LastPrefix(op: BitOp, vs: seq<Val>, ws: seq<Val>, min: nat)
    requires op == And || op == AndCompl
    ensures forall b: nat :: Wanted(op, vs, ws, min, b) ==> HasBit(vs[..|vs|], b)
  {
    assert vs[..|vs|] == vs;
  }

  /** EXECUTE_IF_SET_IN_BITMAP: every bit of `a` from `min` on, in order, once. */
  method IfSet(a: Bitmap, min: nat) returns (out: seq<nat>)
    requires a.Valid()
    ensures Increasing(out)
    ensures forall b: nat :: b in out <==> b >= min && HasBit(a.vals, b)
  {
    ghost var s, vs := a.elts, a.vals;
    BitWhole(min);
    var bitNum, wordNum := BitNum(min), WordNum(min);
    var ptr;
    ghost var k;
    ptr, k := SkipBelow(s, vs, a.first, 0, IndxOf(min));
    assert k < |s| ==> s[k].Value() == vs[k];
    if ptr != null && ptr.indx != IndxOf(min) {
      bitNum, wordNum := 0, 0;
    }
    out := [];
    AtFirst(AndCompl, vs, [], min, k, wordNum, bitNum);
    while ptr != null
      invariant 0 <= k <= |s| && ptr == (if k < |s| then s[k] else null)
      invariant AtElement(AndCompl, vs, [], min, k, wordNum, bitNum, out)
      decreases |s| - k
    {
      assert s[k].Value() == vs[k] && vs[k].Proper();
      NextOf(s, k);
      ghost var seen, w, n := out, wordNum, bitNum;
      out := ScanElement(ptr.Value(), wordNum, bitNum, out);
      forall b: nat
        ensures vs[k].Has(b) <==>
                IndxOf(b) == vs[k].indx && ApplyBit(AndCompl, HasBit(vs, b), HasBit([], b)) && vs[k].Has(b)
      {
        if vs[k].Has(b) { assert HasBit(vs, b); }
      }
      AfterElement(AndCompl, vs, [], min, k, w, n, seen, vs[k], out);
      wordNum, bitNum := 0, 0;
      ptr := ptr.next;
      k := k + 1;
    }
    LastPrefix(AndCompl, vs, [], min);
    AtEnd(AndCompl, vs, [], min, k, wordNum, bitNum, out);
  }

  /** EXECUTE_IF_AND_COMPL_IN_BITMAP: the bits of `a` that are not in `b`. */
  method IfAndCompl(a: Bitmap, b: Bitmap, min: nat) returns (out: seq<nat>)
    requires a.Valid() && b.Valid()
    ensures Increasing(out)
    ensures forall x: nat :: x in out <==> x >= min && HasBit(a.vals, x) && !HasBit(b.vals, x)
  {
    ghost var s, vs, t, ws := a.elts, a.vals, b.elts, b.vals;
    BitWhole(min);
    var bitNum, wordNum := BitNum(min), WordNum(min);
    var ptr1;
    var ptr2 := b.first;
    ghost var k, j := 0, 0;
    ptr1, k := SkipBelow(s, vs, a.first, 0, IndxOf(min));
    assert k < |s| ==> s[k].Value() == vs[k];
    if ptr1 != null && ptr1.indx != IndxOf(min) {
      bitNum, wordNum := 0, 0;
    }
    out := [];
    AtFirst(AndCompl, vs, ws, min, k, wordNum, bitNum);
    while ptr1 != null
      invariant 0 <= k <= |s| && ptr1 == (if k < |s| then s[k] else null)
      invariant 0 <= j <= |t| && ptr2 == (if j < |t| then t[j] else null)
      invariant k < |vs| ==> forall i :: 0 <= i < j ==> ws[i].indx < vs[k].indx
      invariant AtElement(AndCompl, vs, ws, min, k, wordNum, bitNum, out)
      decreases |s| - k
    {
      assert s[k].Value() == vs[k] && vs[k].Proper();
      NextOf(s, k);
      ptr2, j := SkipBelow(t, ws, ptr2, j, ptr1.indx);
      assert j < |t| ==> t[j].Value() == ws[j] && ws[j].Proper();
      var w0, w1 := {}, {};
      if ptr2 != null && ptr2.indx == ptr1.indx {
        w0, w1 := ptr2.bits0, ptr2.bits1;
      }
      ghost var seen, w, n := out, wordNum, bitNum;
      var v := Val(ptr1.indx, ptr1.bits0 - w0, ptr1.bits1 - w1);
      assert v == Combined(AndCompl, vs[k].indx, vs[k], ValAt(ws, j, vs[k].indx));
      out := ScanElement(v, wordNum, bitNum, out);
      forall x: nat {
        WantedInElement(AndCompl, vs, k, ws, j, x);
      }
      AfterElement(AndCompl, vs, ws, min, k, w, n, seen, v, out);
      wordNum, bitNum := 0, 0;
      ptr1 := ptr1.next;
      k := k + 1;
      assert k < |vs| ==> vs[k - 1].indx < vs[k].indx;
    }
    LastPrefix(AndCompl, vs, ws, min);
    AtEnd(AndCompl, vs, ws, min, k, wordNum, bitNum, out);
  }

  /** Elements past `k` cannot hold a common bit once the second list has ended. */
  lemma NothingLeft(vs: seq<Val>, k: nat, ws: seq<Val>, min: nat)
    requires Canonical(vs) && k < |vs| && forall i :: 0 <= i < |ws| ==> ws[i].indx < vs[k].indx
    ensures forall b: nat :: Wanted(And, vs, ws, min, b) ==> HasBit(vs[..k], b)
  {
    forall b: nat | Wanted(And, vs, ws, min, b) ensures HasBit(vs[..k], b) {
      var i :| 0 <= i < |vs| && vs[i].Has(b);
      var j :| 0 <= j < |ws| && ws[j].Has(b);
      assert i < k;
      assert vs[..k][i].Has(b);
    }
  }

  /** Visit what two elements have in common; nothing, if their indices differ. */
  method ScanCommon(p: Val, q: Val, wordNum: nat, bitNum: nat, seen: seq<nat>) returns (out: seq<nat>)
    requires wordNum < 2 && bitNum < 32 && p.Proper() && q.Proper()
    requires Increasing(seen) && AllBelow(seen, BitAt(p.indx, wordNum, bitNum))
    ensures Increasing(out) && AllBelow(out, (p.indx + 1) * 64)
    ensures var v := Combined(And, p.indx, p, if q.indx == p.indx then q else ZeroVal(p.indx));
            forall b: nat :: b in out <==> b in seen || (v.Has(b) && b >= BitAt(v.indx, wordNum, bitNum))
  {
    if q.indx == p.indx {
      out := ScanElement(Val(p.indx, p.bits0 * q.bits0, p.bits1 * q.bits1), wordNum, bitNum, seen);
    } else {
      out := seen;
      StillBelow(seen, p.indx, wordNum, bitNum);
    }
  }

  /** EXECUTE_IF_AND_IN_BITMAP: the bits that are in both `a` and `b`. */
  method IfAnd(a: Bitmap, b: Bitmap, min: nat) returns (out: seq<nat>)
    requires a.Valid() && b.Valid()
    ensures Increasing(out)
    ensures forall x: nat :: x in out <==> x >= min && HasBit(a.vals, x) && HasBit(b.vals, x)
  {
    ghost var s, vs, t, ws := a.elts, a.vals, b.elts, b.vals;
    BitWhole(min);
    var bitNum, wordNum := BitNum(min), WordNum(min);
    var ptr1;
    var ptr2 := b.first;
    ghost var k, j := 0, 0;
    ptr1, k := SkipBelow(s, vs, a.first, 0, IndxOf(min));
    assert k < |s| ==> s[k].Value() == vs[k];
    if ptr1 != null && ptr1.indx != IndxOf(min) {
      bitNum, wordNum := 0, 0;
    }
    out := [];
    AtFirst(And, vs, ws, min, k, wordNum, bitNum);
    while ptr1 != null
      invariant 0 <= k <= |s| && ptr1 == (if k < |s| then s[k] else null)
      invariant 0 <= j <= |t| && ptr2 == (if j < |t| then t[j] else null)
      invariant k < |vs| ==> forall i :: 0 <= i < j ==> ws[i].indx < vs[k].indx
      invariant AtElement(And, vs, ws, min, k, wordNum, bitNum, out)
      decreases |s| - k
    {
      assert s[k].Value() == vs[k] && vs[k].Proper();
      NextOf(s, k);
      ptr2, j := SkipBelow(t, ws, ptr2, j, ptr1.indx);
      if ptr2 == null {
        NothingLeft(vs, k, ws, min);
        AtEnd(And, vs, ws, min, k, wordNum, bitNum, out);
        return;
      }
      assert t[j].Value() == ws[j] && ws[j].Proper();
      ghost var seen, w, n := out, wordNum, bitNum;
      ghost var v := Combined(And, vs[k].indx, vs[k], ValAt(ws, j, vs[k].indx));
      out := ScanCommon(ptr1.Value(), ptr2.Value(), wordNum, bitNum, out);
      forall x: nat {
        WantedInElement(And, vs, k, ws, j, x);
      }
      AfterElement(And, vs, ws, min, k, w, n, seen, v, out);
      bitNum, wordNum := 0, 0;
      ptr1 := ptr1.next;
      k := k + 1;
      assert k < |vs| ==> vs[k - 1].indx < vs[k].indx;
    }
    LastPrefix(And, vs, ws, min);
    AtEnd(And, vs, ws, min, k, wordNum, bitNum, out);
  }

  lemma StillBelow(s: seq<nat>, indx: nat, wordNum: nat, bitNum: nat)
    requires AllBelow(s, BitAt(indx, wordNum, bitNum)) && wordNum < 2 && bitNum < 32
    ensures AllBelow(s, (indx + 1) * 64)
  {
  }
}
