/** The contents of a bitmap list as plain values: a strictly sorted sequence
    of nonzero two-word elements, and the set of bits it stands for. */
module BitmapValues {

  const HOST_BITS_PER_WIDE_INT: nat := 32
  const BITMAP_ELEMENT_WORDS: nat := 2
  const BITMAP_ELEMENT_ALL_BITS: nat := 64

  /** Bit numbers and indices are unsigned ints. */
  const UINT_LIMIT: nat := 0x1_0000_0000
  const NO_INDX: nat := 0xFFFF_FFFF

  /** A machine word, as the set of its one bits: `|`, `&`, `& ~` and `1 << n`
      are union, intersection, difference and singleton. */
  type Word = set<nat>

  function WordNum(bit: nat): nat { (bit / 32) % 2 }
  function BitNum(bit: nat): nat { bit % 32 }
  function IndxOf(bit: nat): nat { bit / 64 }

  /** One element: its index and its two words. */
  datatype Val = Val(indx: nat, bits0: Word, bits1: Word) {

    function Bits(wordNum: nat): Word { if wordNum == 0 then bits0 else bits1 }

    /** `bit` lies in this element and is set. */
    predicate Has(bit: nat) {
      IndxOf(bit) == indx && BitNum(bit) in Bits(WordNum(bit))
    }

    /** The words are words, not both are zero, and the index belongs to a real
        bit number. */
    predicate Proper() {
      && (forall n <- bits0 :: n < HOST_BITS_PER_WIDE_INT) && (forall n <- bits1 :: n < HOST_BITS_PER_WIDE_INT)
      && (bits0 != {} || bits1 != {})
      && indx < UINT_LIMIT / BITMAP_ELEMENT_ALL_BITS
    }
  }

  predicate Sorted(vs: seq<Val>) {
    forall i, j :: 0 <= i < j < |vs| ==> vs[i].indx < vs[j].indx
  }

  predicate Canonical(vs: seq<Val>) {
    Sorted(vs) && forall i :: 0 <= i < |vs| ==> vs[i].Proper()
  }

  predicate HasBit(vs: seq<Val>, bit: nat) {
    exists i :: 0 <= i < |vs| && vs[i].Has(bit)
  }

  /** Elements before position `k` are below `indx`, those after it above. */
  predicate Brackets(vs: seq<Val>, k: nat, indx: nat) {
    && (forall i :: 0 <= i < k && i < |vs| ==> vs[i].indx < indx)
    && (forall i :: k < i < |vs| ==> vs[i].indx > indx)
  }

  predicate NoIndx(vs: seq<Val>, indx: nat) {
    forall i :: 0 <= i < |vs| ==> vs[i].indx != indx
  }

  /** A bit number is its index, word number and bit number in one. */
  lemma BitParts(indx: nat, wordNum: nat, bitNum: nat)
    requires wordNum < 2 && bitNum < 32
    ensures var bit := indx * 64 + wordNum * 32 + bitNum;
            IndxOf(bit) == indx && WordNum(bit) == wordNum && BitNum(bit) == bitNum
  {
  }

  lemma BitWhole(bit: nat)
    ensures bit == IndxOf(bit) * 64 + WordNum(bit) * 32 + BitNum(bit)
    ensures WordNum(bit) < 2 && BitNum(bit) < 32
  {
  }

  /** Where a walk for `target` ends, the cursor is right again and `target` is
      either there or nowhere. */
  lemma Landing(vs: seq<Val>, p: nat, indx: nat, target: nat, k: nat)
    requires Sorted(vs) && p < |vs| && k < |vs| && Brackets(vs, p, indx)
    requires if indx > target
             then k <= p && (k == 0 || vs[k].indx <= target) && (forall i :: k < i <= p ==> vs[i].indx > target)
             else p <= k && (k == |vs| - 1 || vs[k].indx >= target) && (forall i :: p <= i < k ==> vs[i].indx < target)
    ensures Brackets(vs, k, vs[k].indx)
    ensures vs[k].indx != target ==> NoIndx(vs, target)
  {
    if vs[k].indx != target {
      if indx > target {
        assert forall i :: k < i < |vs| ==> vs[i].indx > target;
      } else {
        assert forall i :: 0 <= i < k ==> vs[i].indx < target;
      }
    }
  }

  function Inserted(vs: seq<Val>, k: nat, v: Val): seq<Val>
    requires k <= |vs|
  {
    vs[..k] + [v] + vs[k..]
  }

  function Removed(vs: seq<Val>, k: nat): seq<Val>
    requires k < |vs|
  {
    vs[..k] + vs[k + 1..]
  }

  lemma InsertedAt(vs: seq<Val>, k: nat, v: Val)
    requires k <= |vs|
    ensures var r := Inserted(vs, k, v);
            |r| == |vs| + 1 && r[k] == v
            && (forall i :: 0 <= i < k ==> r[i] == vs[i])
            && (forall i :: k < i < |r| ==> r[i] == vs[i - 1])
            && (forall i :: k <= i < |vs| ==> r[i + 1] == vs[i])
  {
  }

  /** Position `k` of `r` holds `v`; the rest of `r` is `vs`. */
  ghost predicate IsInserted(r: seq<Val>, vs: seq<Val>, k: nat, v: Val) {
    && k <= |vs| && |r| == |vs| + 1 && r[k] == v
    && (forall i :: 0 <= i < k ==> r[i] == vs[i])
    && (forall i :: k < i < |r| ==> r[i] == vs[i - 1])
  }

  lemma InsertedSorted(r: seq<Val>, vs: seq<Val>, k: nat, v: Val)
    requires IsInserted(r, vs, k, v) && Sorted(vs)
    requires k > 0 ==> vs[k - 1].indx < v.indx
    requires k < |vs| ==> v.indx < vs[k].indx
    ensures Sorted(r) && Brackets(r, k, v.indx)
  {
    forall i | 0 <= i < k ensures r[i].indx < v.indx {
      assert i == k - 1 || vs[i].indx < vs[k - 1].indx;
    }
    forall i | k < i < |r| ensures v.indx < r[i].indx {
      assert i == k + 1 || vs[k].indx < vs[i - 1].indx;
    }
  }

  lemma InsertedCanonical(vs: seq<Val>, k: nat, v: Val)
    requires Canonical(vs) && k <= |vs| && v.Proper()
    requires k > 0 ==> vs[k - 1].indx < v.indx
    requires k < |vs| ==> v.indx < vs[k].indx
    ensures Canonical(Inserted(vs, k, v)) && Brackets(Inserted(vs, k, v), k, v.indx)
  {
    InsertedAt(vs, k, v);
    InsertedSorted(Inserted(vs, k, v), vs, k, v);
  }

  lemma InsertedHas(vs: seq<Val>, k: nat, v: Val, b: nat)
    requires k <= |vs|
    ensures HasBit(Inserted(vs, k, v), b) <==> HasBit(vs, b) || v.Has(b)
  {
    InsertedAt(vs, k, v);
    var r := Inserted(vs, k, v);
    if HasBit(vs, b) {
      var i :| 0 <= i < |vs| && vs[i].Has(b);
      assert r[if i < k then i else i + 1].Has(b);
    }
    if v.Has(b) { assert r[k].Has(b); }
  }

  lemma RemovedFacts(vs: seq<Val>, k: nat, p: nat, indx: nat)
    requires Sorted(vs) && k < |vs| && (forall i :: 0 <= i < |vs| && i != k ==> vs[i].Proper())
    requires p < |vs| && Brackets(vs, p, indx)
    ensures Canonical(Removed(vs, k))
    ensures var q := if p < k then p else if p > k then p - 1 else if k + 1 < |vs| then k else k - 1;
            |vs| > 1 ==> 0 <= q < |vs| - 1 && (p == k ==> indx == vs[k].indx) ==>
            Brackets(Removed(vs, k), q, indx)
  {
    var r := Removed(vs, k);
    assert forall i :: 0 <= i < k ==> r[i] == vs[i];
    assert forall i :: k < i < |vs| ==> r[i - 1] == vs[i];
  }

  lemma UpdatedFacts(vs: seq<Val>, k: nat, v: Val)
    requires Canonical(vs) && k < |vs| && v.indx == vs[k].indx
    ensures Sorted(vs[k := v]) && (v.Proper() ==> Canonical(vs[k := v]))
    ensures forall b :: HasBit(vs[k := v], b) <==> if IndxOf(b) == v.indx then v.Has(b) else HasBit(vs, b)
    ensures forall b :: IndxOf(b) == v.indx ==> (HasBit(vs, b) <==> vs[k].Has(b))
  {
    var r := vs[k := v];
    forall b ensures HasBit(r, b) <==> if IndxOf(b) == v.indx then v.Has(b) else HasBit(vs, b) {
      if IndxOf(b) == v.indx {
        assert r[k] == v;
        assert forall i :: 0 <= i < |r| && i != k ==> r[i].indx != v.indx;
      } else {
        if HasBit(vs, b) {
          var i :| 0 <= i < |vs| && vs[i].Has(b);
          assert r[i].Has(b);
        }
        if HasBit(r, b) {
          var i :| 0 <= i < |r| && r[i].Has(b);
          assert vs[i].Has(b);
        }
      }
    }
    forall b | IndxOf(b) == v.indx ensures HasBit(vs, b) <==> vs[k].Has(b) {
      assert forall i :: 0 <= i < |vs| && i != k ==> vs[i].indx != v.indx;
    }
  }

  // ----- changing one bit -----

  ghost predicate Adds(vs: seq<Val>, before: seq<Val>, bit: nat) {
    forall b :: HasBit(vs, b) <==> HasBit(before, b) || b == bit
  }

  ghost predicate Drops(vs: seq<Val>, before: seq<Val>, bit: nat) {
    forall b :: HasBit(vs, b) <==> HasBit(before, b) && b != bit
  }

  ghost predicate SameBits(vs: seq<Val>, ws: seq<Val>) {
    forall b :: HasBit(vs, b) <==> HasBit(ws, b)
  }

  function SetVal(v: Val, bit: nat): Val {
    if WordNum(bit) == 0 then v.(bits0 := v.bits0 + {BitNum(bit)}) else v.(bits1 := v.bits1 + {BitNum(bit)})
  }

  function ClearVal(v: Val, bit: nat): Val {
    if WordNum(bit) == 0 then v.(bits0 := v.bits0 - {BitNum(bit)}) else v.(bits1 := v.bits1 - {BitNum(bit)})
  }

  lemma OneBitHas(v: Val, bit: nat, b: nat)
    requires v.indx == IndxOf(bit)
    ensures SetVal(v, bit).Has(b) <==> v.Has(b) || b == bit
    ensures ClearVal(v, bit).Has(b) <==> v.Has(b) && b != bit
  {
    BitWhole(b);
    BitWhole(bit);
  }

  lemma SetUpdate(vs: seq<Val>, k: nat, bit: nat)
    requires Canonical(vs) && k < |vs| && vs[k].indx == IndxOf(bit) && bit < UINT_LIMIT
    ensures var r := vs[k := SetVal(vs[k], bit)];
            Canonical(r) && Adds(r, vs, bit)
            && (forall i, x :: Brackets(vs, i, x) ==> Brackets(r, i, x))
  {
    var v := SetVal(vs[k], bit);
    assert v.Proper();
    UpdatedFacts(vs, k, v);
    forall b ensures v.Has(b) <==> vs[k].Has(b) || b == bit {
      OneBitHas(vs[k], bit, b);
    }
  }

  lemma ClearUpdate(vs: seq<Val>, k: nat, bit: nat)
    requires Canonical(vs) && k < |vs| && vs[k].indx == IndxOf(bit)
    ensures var r := vs[k := ClearVal(vs[k], bit)];
            Sorted(r) && (r[k].bits0 != {} || r[k].bits1 != {} ==> Canonical(r))
            && Drops(r, vs, bit)
            && (forall i, x :: Brackets(vs, i, x) ==> Brackets(r, i, x))
  {
    var v := ClearVal(vs[k], bit);
    assert v.bits0 != {} || v.bits1 != {} ==> v.Proper();
    UpdatedFacts(vs, k, v);
    forall b ensures v.Has(b) <==> vs[k].Has(b) && b != bit {
      OneBitHas(vs[k], bit, b);
    }
  }

  /** Removing a zero element removes no bit. */
  lemma RemoveZero(vs: seq<Val>, k: nat)
    requires Sorted(vs) && k < |vs| && vs[k].bits0 == {} && vs[k].bits1 == {}
    ensures SameBits(Removed(vs, k), vs)
  {
    var r := Removed(vs, k);
    assert forall i :: 0 <= i < k ==> r[i] == vs[i];
    assert forall i :: k < i < |vs| ==> r[i - 1] == vs[i];
    forall b ensures HasBit(r, b) <==> HasBit(vs, b) {
      if HasBit(vs, b) {
        var i :| 0 <= i < |vs| && vs[i].Has(b);
        assert r[if i < k then i else i - 1].Has(b);
      }
      if HasBit(r, b) {
        var i :| 0 <= i < |r| && r[i].Has(b);
        assert vs[if i < k then i else i + 1].Has(b);
      }
    }
  }

  lemma NoIndxNoBit(vs: seq<Val>, bit: nat)
    requires NoIndx(vs, IndxOf(bit))
    ensures !HasBit(vs, bit)
  {
  }

  /** A new element holding one bit. */
  function SingleVal(bit: nat): Val { SetVal(Val(IndxOf(bit), {}, {}), bit) }

  lemma SingleHas(bit: nat)
    ensures bit < UINT_LIMIT ==> SingleVal(bit).Proper()
    ensures forall b :: SingleVal(bit).Has(b) <==> b == bit
  {
    forall b ensures SingleVal(bit).Has(b) <==> b == bit {
      OneBitHas(Val(IndxOf(bit), {}, {}), bit, b);
    }
  }

  // ----- growing at the end -----

  predicate Below(vs: seq<Val>, n: nat) {
    forall i :: 0 <= i < |vs| ==> vs[i].indx < n
  }

  lemma PrefixStep(vs: seq<Val>, k: nat)
    requires Canonical(vs) && k < |vs|
    ensures vs[..k + 1] == vs[..k] + [vs[k]] && Below(vs[..k], vs[k].indx) && vs[k].Proper()
  {
  }

  lemma InsertedBelow(vs: seq<Val>, k: nat, v: Val)
    requires k <= |vs| && Below(vs, v.indx)
    ensures Below(Inserted(vs, k, v), v.indx + 1)
  {
  }

  lemma AppendedCanonical(vs: seq<Val>, v: Val)
    requires Canonical(vs) && v.Proper() && Below(vs, v.indx)
    ensures Canonical(vs + [v])
  {
  }

  lemma AppendedBrackets(vs: seq<Val>, v: Val, indx: nat)
    requires vs != [] && Below(vs, v.indx) && Brackets(vs, 0, indx) && indx <= vs[0].indx
    ensures Brackets(vs + [v], 0, indx)
  {
  }

  // ----- combining two lists -----

  /** The operations of bitmap_operation. */
  datatype BitOp = And | AndCompl | Ior

  function ApplyWord(op: BitOp, a: Word, b: Word): Word {
    match op
    case And => a * b
    case AndCompl => a - b
    case Ior => a + b
  }

  predicate ApplyBit(op: BitOp, a: bool, b: bool) {
    match op
    case And => a && b
    case AndCompl => a && !b
    case Ior => a || b
  }

  function Combined(op: BitOp, indx: nat, v: Val, w: Val): Val {
    Val(indx, ApplyWord(op, v.bits0, w.bits0), ApplyWord(op, v.bits1, w.bits1))
  }

  function ZeroVal(indx: nat): Val { Val(indx, {}, {}) }

  lemma CombinedHas(op: BitOp, indx: nat, v: Val, w: Val, b: nat)
    requires v.indx == indx == w.indx
    ensures Combined(op, indx, v, w).Has(b) <==> ApplyBit(op, v.Has(b), w.Has(b))
  {
  }

  /** `ts` holds the combination of the first `i` elements of `vs` and the
      first `j` of `ws`. */
  ghost predicate Merged(op: BitOp, ts: seq<Val>, vs: seq<Val>, i: nat, ws: seq<Val>, j: nat)
    requires i <= |vs| && j <= |ws|
  {
    forall b :: HasBit(ts, b) <==> ApplyBit(op, HasBit(vs[..i], b), HasBit(ws[..j], b))
  }

  /** `ts` stands for the combination of the sets of `vs` and `ws`. */
  ghost predicate Combines(op: BitOp, ts: seq<Val>, vs: seq<Val>, ws: seq<Val>) {
    forall b :: HasBit(ts, b) <==> ApplyBit(op, HasBit(vs, b), HasBit(ws, b))
  }

  function NextIndx(vs: seq<Val>, i: nat): nat {
    if i < |vs| then vs[i].indx else NO_INDX
  }

  /** What a list contributes at index `x` when its next element is number `i`. */
  function ValAt(vs: seq<Val>, i: nat, x: nat): Val {
    if i < |vs| && vs[i].indx == x then vs[i] else ZeroVal(x)
  }

  function After(vs: seq<Val>, i: nat, x: nat): nat {
    if i < |vs| && vs[i].indx == x then i + 1 else i
  }

  lemma PrefixHas(vs: seq<Val>, i: nat, x: nat, b: nat)
    requires Canonical(vs) && i <= |vs| && Below(vs[..i], x)
    ensures var j := After(vs, i, x);
            HasBit(vs[..j], b) <==> if IndxOf(b) == x then ValAt(vs, i, x).Has(b) else HasBit(vs[..i], b)
    ensures IndxOf(b) == x ==> !HasBit(vs[..i], b)
  {
    var j := After(vs, i, x);
    if j == i + 1 {
      assert vs[..j] == vs[..i] + [vs[i]];
      if HasBit(vs[..i], b) {
        var k :| 0 <= k < i && vs[..i][k].Has(b);
        assert vs[..j][k].Has(b);
      }
      if vs[i].Has(b) { assert vs[..j][i].Has(b); }
    }
  }

  /** One round of the merge, at the smallest index not yet handled. */
  lemma MergeStep(op: BitOp, ts: seq<Val>, ts': seq<Val>, vs: seq<Val>, i: nat, ws: seq<Val>, j: nat, x: nat)
    requires Canonical(vs) && Canonical(ws) && i <= |vs| && j <= |ws|
    requires Below(vs[..i], x) && Below(ws[..j], x)
    requires Merged(op, ts, vs, i, ws, j)
    requires var r := Combined(op, x, ValAt(vs, i, x), ValAt(ws, j, x));
             forall b :: HasBit(ts', b) <==> HasBit(ts, b) || r.Has(b)
    ensures Merged(op, ts', vs, After(vs, i, x), ws, After(ws, j, x))
  {
    var r := Combined(op, x, ValAt(vs, i, x), ValAt(ws, j, x));
    forall b ensures HasBit(ts', b) <==>
                     ApplyBit(op, HasBit(vs[..After(vs, i, x)], b), HasBit(ws[..After(ws, j, x)], b)) {
      PrefixHas(vs, i, x, b);
      PrefixHas(ws, j, x, b);
      CombinedHas(op, x, ValAt(vs, i, x), ValAt(ws, j, x), b);
    }
  }

  /** Everything handled so far is below whatever comes next. */
  lemma PrefixBelow(vs: seq<Val>, i: nat, x: nat)
    requires Canonical(vs) && i <= |vs| && Below(vs[..i], x) && x <= NextIndx(vs, i) && x < NO_INDX
    ensures Below(vs[..After(vs, i, x)], x + 1) && x < NextIndx(vs, After(vs, i, x))
  {
  }

  lemma CombinedProper(op: BitOp, vs: seq<Val>, i: nat, ws: seq<Val>, j: nat, x: nat)
    requires Canonical(vs) && Canonical(ws) && i <= |vs| && j <= |ws| && (i < |vs| || j < |ws|)
    requires x == if NextIndx(vs, i) <= NextIndx(ws, j) then NextIndx(vs, i) else NextIndx(ws, j)
    ensures var r := Combined(op, x, ValAt(vs, i, x), ValAt(ws, j, x));
            r.bits0 != {} || r.bits1 != {} ==> r.Proper()
    ensures x < NO_INDX
  {
    var v, w := ValAt(vs, i, x), ValAt(ws, j, x);
    assert forall n <- v.bits0 + v.bits1 + w.bits0 + w.bits1 :: n < HOST_BITS_PER_WIDE_INT;
  }

  /** The state of the merge loop: what has been handled is merged and lies
      below everything still to come. */
  ghost predicate MergeAt(op: BitOp, ts: seq<Val>, vs: seq<Val>, i: nat, ws: seq<Val>, j: nat) {
    && Canonical(vs) && Canonical(ws) && i <= |vs| && j <= |ws| && Merged(op, ts, vs, i, ws, j)
    && Below(vs[..i], NextIndx(ws, j)) && Below(ws[..j], NextIndx(vs, i))
    && Below(ts, NextIndx(vs, i)) && Below(ts, NextIndx(ws, j))
  }

  lemma MergeStart(op: BitOp, vs: seq<Val>, ws: seq<Val>)
    requires Canonical(vs) && Canonical(ws)
    ensures MergeAt(op, [], vs, 0, ws, 0)
  {
    assert forall b :: !HasBit([], b) && !HasBit(vs[..0], b) && !HasBit(ws[..0], b);
  }

  lemma MergeBounds(op: BitOp, ts: seq<Val>, vs: seq<Val>, i: nat, ws: seq<Val>, j: nat, x: nat)
    requires MergeAt(op, ts, vs, i, ws, j) && (i < |vs| || j < |ws|)
    requires x == if NextIndx(vs, i) <= NextIndx(ws, j) then NextIndx(vs, i) else NextIndx(ws, j)
    ensures Below(ts, x) && Below(vs[..i], x) && Below(ws[..j], x) && x < NO_INDX
    ensures var r := Combined(op, x, ValAt(vs, i, x), ValAt(ws, j, x));
            r.bits0 != {} || r.bits1 != {} ==> r.Proper()
    ensures (NextIndx(vs, i) <= NextIndx(ws, j) <==> i < |vs| && vs[i].indx == x)
    ensures (NextIndx(ws, j) <= NextIndx(vs, i) <==> j < |ws| && ws[j].indx == x)
  {
    CombinedProper(op, vs, i, ws, j, x);
  }

  lemma MergeRound(op: BitOp, ts: seq<Val>, ts': seq<Val>, vs: seq<Val>, i: nat, ws: seq<Val>, j: nat, x: nat)
    requires MergeAt(op, ts, vs, i, ws, j) && (i < |vs| || j < |ws|)
    requires x == if NextIndx(vs, i) <= NextIndx(ws, j) then NextIndx(vs, i) else NextIndx(ws, j)
    requires var r := Combined(op, x, ValAt(vs, i, x), ValAt(ws, j, x));
             forall b :: HasBit(ts', b) <==> HasBit(ts, b) || r.Has(b)
    requires Below(ts', x + 1)
    ensures MergeAt(op, ts', vs, After(vs, i, x), ws, After(ws, j, x))
  {
    MergeBounds(op, ts, vs, i, ws, j, x);
    MergeStep(op, ts, ts', vs, i, ws, j, x);
    PrefixBelow(vs, i, x);
    PrefixBelow(ws, j, x);
  }

  // ----- one list per set -----

  lemma ProperHasBit(v: Val) returns (b: nat)
    requires v.Proper()
    ensures v.Has(b)
  {
    var w := if v.bits0 != {} then 0 else 1;
    var n :| n in v.Bits(w);
    assert n < HOST_BITS_PER_WIDE_INT by { assert n in v.bits0 || n in v.bits1; }
    BitParts(v.indx, w, n);
    b := v.indx * 64 + w * 32 + n;
  }

  lemma SameHasSameVal(v: Val, w: Val)
    requires v.Proper() && w.Proper() && v.indx == w.indx
    requires forall b :: v.Has(b) <==> w.Has(b)
    ensures v == w
  {
    forall k, n | k in {0, 1} && n < 32 ensures n in v.Bits(k) <==> n in w.Bits(k) {
      BitParts(v.indx, k, n);
      var b := v.indx * 64 + k * 32 + n;
      assert v.Has(b) <==> w.Has(b);
    }
    forall n ensures (n in v.bits0 <==> n in w.bits0) && (n in v.bits1 <==> n in w.bits1) {
      if n < 32 { assert n in v.Bits(0) <==> n in w.Bits(0); assert n in v.Bits(1) <==> n in w.Bits(1); }
    }
  }

  lemma HeadIndxLeast(vs: seq<Val>, ws: seq<Val>)
    requires Canonical(vs) && Canonical(ws) && vs != []
    requires forall b :: HasBit(vs, b) <==> HasBit(ws, b)
    ensures ws != [] && ws[0].indx <= vs[0].indx
  {
    var b := ProperHasBit(vs[0]);
    assert HasBit(vs, b);
    var j :| 0 <= j < |ws| && ws[j].Has(b);
  }

  lemma HeadHas(vs: seq<Val>, b: nat)
    requires Sorted(vs) && vs != [] && IndxOf(b) == vs[0].indx
    ensures HasBit(vs, b) <==> vs[0].Has(b)
  {
  }

  lemma TailHas(vs: seq<Val>, b: nat)
    requires Sorted(vs) && vs != []
    ensures HasBit(vs[1..], b) <==> HasBit(vs, b) && IndxOf(b) != vs[0].indx
  {
    if HasBit(vs, b) && IndxOf(b) != vs[0].indx {
      var i :| 0 <= i < |vs| && vs[i].Has(b);
      assert vs[1..][i - 1].Has(b);
    }
    if HasBit(vs[1..], b) {
      var i :| 0 <= i < |vs| - 1 && vs[1..][i].Has(b);
      assert vs[i + 1].Has(b) && vs[0].indx < vs[i + 1].indx;
    }
  }

  /** Two well-formed lists that stand for the same set are the same list. */
  lemma {:induction false} CanonicalIsUnique(vs: seq<Val>, ws: seq<Val>)
    requires Canonical(vs) && Canonical(ws)
    requires forall b :: HasBit(vs, b) <==> HasBit(ws, b)
    ensures vs == ws
    decreases |vs|
  {
    if vs != [] {
      HeadIndxLeast(vs, ws);
    }
    if ws != [] {
      HeadIndxLeast(ws, vs);
      forall b ensures vs[0].Has(b) <==> ws[0].Has(b) {
        if IndxOf(b) == vs[0].indx {
          HeadHas(vs, b);
          HeadHas(ws, b);
          assert HasBit(vs, b) <==> HasBit(ws, b);
        }
      }
      SameHasSameVal(vs[0], ws[0]);
      forall b ensures HasBit(vs[1..], b) <==> HasBit(ws[1..], b) {
        TailHas(vs, b);
        TailHas(ws, b);
        assert HasBit(vs, b) <==> HasBit(ws, b);
      }
      CanonicalIsUnique(vs[1..], ws[1..]);
      assert vs == [vs[0]] + vs[1..] && ws == [ws[0]] + ws[1..];
    }
  }
}
