/** Sparse bitmaps as the compiler keeps them: doubly linked elements with a
    cached cursor, and one free list that all bitmaps share. */
module Bitmaps {
  import opened BitmapValues

  class Element {
    var next: Element?
    var prev: Element?
    var indx: nat
    var bits0: Word
    var bits1: Word

    constructor ()
      ensures bits0 == {} && bits1 == {}
    {
      bits0, bits1 := {}, {};
    }

    function Value(): Val
      reads this
    {
      Val(indx, bits0, bits1)
    }
  }

  /** `s` is a whole list in link order. */
  ghost predicate Linked(s: seq<Element>)
    reads s
  {
    && (forall i {:trigger s[i].next} :: 0 <= i < |s| ==> s[i].next == (if i + 1 < |s| then s[i + 1] else null))
    && (forall i {:trigger s[i].prev} :: 0 <= i < |s| ==> s[i].prev == (if i > 0 then s[i - 1] else null))
  }

  /** The elements of `s` hold the values `vs`. */
  ghost predicate Mirrors(s: seq<Element>, vs: seq<Val>)
    reads s
  {
    |s| == |vs| && forall i :: 0 <= i < |s| ==> s[i].Value() == vs[i]
  }

  function First(s: seq<Element>): Element? {
    if s == [] then null else s[0]
  }

  lemma NextOf(s: seq<Element>, k: nat)
    requires Linked(s) && k < |s|
    ensures s[k].next == if k + 1 < |s| then s[k + 1] else null
  {
  }

  lemma PrevOf(s: seq<Element>, k: nat)
    requires Linked(s) && k < |s|
    ensures s[k].prev == if k > 0 then s[k - 1] else null
  {
  }

  lemma Distinct(s: seq<Element>, vs: seq<Val>)
    requires Mirrors(s, vs) && Sorted(vs)
    ensures AllDistinct(s)
  {
    forall i, j | 0 <= i < j < |s| ensures s[i] != s[j] {
      assert s[i].Value() == vs[i] && s[j].Value() == vs[j] && vs[i].indx < vs[j].indx;
    }
  }

  // ----- walks along a list -----

  /** Back from position `p` while there is a previous element and this one is above `target`. */
  method WalkBack(ghost s: seq<Element>, ghost vs: seq<Val>, start: Element, ghost p: nat, target: nat)
    returns (e: Element, ghost k: nat)
    requires Linked(s) && Mirrors(s, vs) && p < |s| && start == s[p]
    ensures k <= p && e == s[k] && (k == 0 || vs[k].indx <= target)
    ensures forall i :: k < i <= p ==> vs[i].indx > target
  {
    e, k := start, p;
    PrevOf(s, k);
    assert s[k].Value() == vs[k];
    while e.prev != null && e.indx > target
      invariant k <= p && e == s[k] && e.indx == vs[k].indx
      invariant e.prev == if k > 0 then s[k - 1] else null
      invariant forall i :: k < i <= p ==> vs[i].indx > target
      decreases k
    {
      e := e.prev;
      k := k - 1;
      PrevOf(s, k);
      assert s[k].Value() == vs[k];
    }
  }

  /** On from position `p` while there is a next element and this one is below `target`. */
  method WalkOn(ghost s: seq<Element>, ghost vs: seq<Val>, start: Element, ghost p: nat, target: nat)
    returns (e: Element, ghost k: nat)
    requires Linked(s) && Mirrors(s, vs) && p < |s| && start == s[p]
    ensures p <= k < |s| && e == s[k] && (k == |s| - 1 || vs[k].indx >= target)
    ensures forall i :: p <= i < k ==> vs[i].indx < target
  {
    e, k := start, p;
    NextOf(s, k);
    assert s[k].Value() == vs[k];
    while e.next != null && e.indx < target
      invariant p <= k < |s| && e == s[k] && e.indx == vs[k].indx
      invariant e.next == if k + 1 < |s| then s[k + 1] else null
      invariant forall i :: p <= i < k ==> vs[i].indx < target
      decreases |s| - k
    {
      e := e.next;
      k := k + 1;
      NextOf(s, k);
      assert s[k].Value() == vs[k];
    }
  }

  /** Back from position `p` to the first element whose predecessor is not above `target`. */
  method SeekBefore(ghost s: seq<Element>, ghost vs: seq<Val>, start: Element, ghost p: nat, target: nat)
    returns (e: Element, ghost k: nat)
    requires Linked(s) && Mirrors(s, vs) && p < |s| && start == s[p] && vs[p].indx > target
    ensures k <= p && e == s[k] && vs[k].indx > target && (k == 0 || vs[k - 1].indx <= target)
  {
    e, k := start, p;
    PrevOf(s, k);
    assert k > 0 ==> s[k - 1].Value() == vs[k - 1];
    while e.prev != null && e.prev.indx > target
      invariant k <= p && e == s[k] && vs[k].indx > target
      invariant e.prev == if k > 0 then s[k - 1] else null
      invariant k > 0 ==> s[k - 1].indx == vs[k - 1].indx
      decreases k
    {
      e := e.prev;
      k := k - 1;
      PrevOf(s, k);
      assert k > 0 ==> s[k - 1].Value() == vs[k - 1];
    }
  }

  /** On from position `p` to the first element whose successor is not below `target`. */
  method SeekAfter(ghost s: seq<Element>, ghost vs: seq<Val>, start: Element, ghost p: nat, target: nat)
    returns (e: Element, ghost k: nat)
    requires Linked(s) && Mirrors(s, vs) && p < |s| && start == s[p] && vs[p].indx < target
    ensures p <= k < |s| && e == s[k] && vs[k].indx < target && (k == |s| - 1 || vs[k + 1].indx >= target)
  {
    e, k := start, p;
    NextOf(s, k);
    assert k + 1 < |s| ==> s[k + 1].Value() == vs[k + 1];
    while e.next != null && e.next.indx < target
      invariant p <= k < |s| && e == s[k] && vs[k].indx < target
      invariant e.next == if k + 1 < |s| then s[k + 1] else null
      invariant k + 1 < |s| ==> s[k + 1].indx == vs[k + 1].indx
      decreases |s| - k
    {
      e := e.next;
      k := k + 1;
      NextOf(s, k);
      assert k + 1 < |s| ==> s[k + 1].Value() == vs[k + 1];
    }
  }

  // ----- changing links -----

  ghost function With(s: seq<Element>, k: nat, e: Element): seq<Element>
    requires k <= |s|
  {
    s[..k] + [e] + s[k..]
  }

  ghost predicate AllDistinct(s: seq<Element>) {
    forall i, j :: 0 <= i < j < |s| ==> s[i] != s[j]
  }

  lemma WithAt(s: seq<Element>, k: nat, e: Element)
    requires k <= |s|
    ensures var r := With(s, k, e);
            |r| == |s| + 1 && r[k] == e
            && (forall i :: 0 <= i < k ==> r[i] == s[i]) && (forall i :: k < i < |r| ==> r[i] == s[i - 1])
  {
  }

  lemma WithMembers(s: seq<Element>, k: nat, x: Element)
    requires k <= |s|
    ensures forall e :: e in With(s, k, x) <==> e in s || e == x
  {
    WithAt(s, k, x);
    assert forall i :: 0 <= i < |s| ==> s[i] == With(s, k, x)[if i < k then i else i + 1];
  }

  lemma WithoutMembers(s: seq<Element>, k: nat)
    requires k < |s| && AllDistinct(s)
    ensures forall e :: e in Without(s, k) <==> e in s && e != s[k]
  {
    WithoutAt(s, k);
    assert forall i :: 0 <= i < |s| && i != k ==> s[i] == Without(s, k)[if i < k then i else i - 1];
  }

  /** The facts about the new position alone. */
  lemma WithHere(s: seq<Element>, vs: seq<Val>, k: nat, e: Element, v: Val)
    requires k <= |s| == |vs|
    ensures var r := With(s, k, e); |r| == |s| + 1 && r[k] == e && First(r) == (if k == 0 then e else First(s))
    ensures Inserted(vs, k, v)[k] == v && |Inserted(vs, k, v)| == |vs| + 1
  {
  }

  lemma WithMirrors(s: seq<Element>, vs: seq<Val>, k: nat, e: Element)
    requires Mirrors(s, vs) && k <= |s|
    ensures Mirrors(With(s, k, e), Inserted(vs, k, e.Value()))
  {
    WithAt(s, k, e);
    InsertedAt(vs, k, e.Value());
  }

  /** Link `element` in front of `ptr`, the element at position `k`. */
  method InsertBefore(ghost s: seq<Element>, ghost vs: seq<Val>, ptr: Element, ghost k: nat, element: Element)
    requires Linked(s) && Mirrors(s, vs) && AllDistinct(s) && k < |s| && ptr == s[k] && element !in s
    modifies s, element
    ensures Linked(With(s, k, element)) && Mirrors(s, vs) && element.Value() == old(element.Value())
  {
    PrevOf(s, k);
    assert k > 0 ==> s[k - 1] in s;
    if ptr.prev != null {
      ptr.prev.next := element;
    }
    element.prev := ptr.prev;
    element.next := ptr;
    ptr.prev := element;
    assert forall i :: 0 <= i < |s| ==> s[i].Value() == old(s[i].Value());
    WithAt(s, k, element);
  }

  /** Link `element` behind `ptr`, the element at position `k`. */
  method InsertAfter(ghost s: seq<Element>, ghost vs: seq<Val>, ptr: Element, ghost k: nat, element: Element)
    requires Linked(s) && Mirrors(s, vs) && AllDistinct(s) && k < |s| && ptr == s[k] && element !in s
    modifies s, element
    ensures Linked(With(s, k + 1, element)) && Mirrors(s, vs) && element.Value() == old(element.Value())
  {
    NextOf(s, k);
    assert k + 1 < |s| ==> s[k + 1] in s;
    if ptr.next != null {
      ptr.next.prev := element;
    }
    element.next := ptr.next;
    element.prev := ptr;
    ptr.next := element;
    assert forall i :: 0 <= i < |s| ==> s[i].Value() == old(s[i].Value());
    WithAt(s, k + 1, element);
  }

  ghost function Without(s: seq<Element>, k: nat): seq<Element>
    requires k < |s|
  {
    s[..k] + s[k + 1..]
  }

  lemma WithoutAt(s: seq<Element>, k: nat)
    requires k < |s|
    ensures var r := Without(s, k);
            |r| == |s| - 1
            && (forall i :: 0 <= i < k ==> r[i] == s[i]) && (forall i :: k <= i < |r| ==> r[i] == s[i + 1])
    ensures AllDistinct(s) ==> s[k] !in Without(s, k)
  {
  }

  /** The facts about the cursor's new place alone. */
  lemma WithoutHere(s: seq<Element>, k: nat)
    requires k < |s| && AllDistinct(s)
    ensures var r := Without(s, k);
            && |r| == |s| - 1 && s[k] !in r
            && (k + 1 < |s| ==> r[k] == s[k + 1]) && (k > 0 ==> r[k - 1] == s[k - 1])
            && First(r) == (if k > 0 then s[0] else if |s| > 1 then s[1] else null)
  {
    WithoutAt(s, k);
  }

  lemma WithoutMirrors(s: seq<Element>, vs: seq<Val>, k: nat)
    requires Mirrors(s, vs) && k < |s|
    ensures Mirrors(Without(s, k), Removed(vs, k))
  {
    WithoutAt(s, k);
  }

  /** Take the element at position `k` out of the chain of its neighbours. */
  method Unlink(ghost s: seq<Element>, ghost vs: seq<Val>, elt: Element, ghost k: nat)
    requires Linked(s) && Mirrors(s, vs) && AllDistinct(s) && k < |s| && elt == s[k]
    modifies s
    ensures Linked(Without(s, k)) && Mirrors(s, vs)
    ensures elt.next == old(elt.next) && elt.prev == old(elt.prev)
  {
    NextOf(s, k);
    PrevOf(s, k);
    assert k > 0 ==> s[k - 1] in s;
    assert k + 1 < |s| ==> s[k + 1] in s;
    var next, prev := elt.next, elt.prev;
    if prev != null {
      prev.next := next;
    }
    if next != null {
      next.prev := prev;
    }
    assert forall i :: 0 <= i < |s| ==> s[i].Value() == old(s[i].Value());
    WithoutAt(s, k);
  }

  // ----- the free list -----

  /** The global bitmap_free: elements chained by `next` alone. */
  class FreeList {
    var free: Element?
    ghost var chain: seq<Element>

    ghost predicate Valid()
      reads this, chain
    {
      && free == First(chain)
      && (forall i {:trigger chain[i].next} :: 0 <= i < |chain| ==>
            chain[i].next == (if i + 1 < |chain| then chain[i + 1] else null))
      && (forall i, j :: 0 <= i < j < |chain| ==> chain[i] != chain[j])
    }

    constructor ()
      ensures Valid() && chain == []
    {
      free, chain := null, [];
    }

    /** bitmap_element_allocate: the first free element or a new one, cleared. */
    method Allocate() returns (e: Element)
      requires Valid()
      modifies this, if chain == [] then {} else {chain[0]}
      ensures Valid() && e.bits0 == {} && e.bits1 == {} && e !in chain
      ensures if old(chain) == [] then fresh(e) && chain == [] else [e] + chain == old(chain)
    {
      if free != null {
        e := free;
        free := e.next;
        assert chain == [e] + chain[1..];
        chain := chain[1..];
        e.bits0, e.bits1 := {}, {};
      } else {
        e := new Element();
      }
    }

    /** Put a whole list back, front first. */
    method ReleaseAll(start: Element?, ghost s: seq<Element>)
      requires Valid() && start == First(s) && AllDistinct(s)
      requires forall k {:trigger s[k].next} :: 0 <= k < |s| ==> s[k].next == (if k + 1 < |s| then s[k + 1] else null)
      requires forall k :: 0 <= k < |chain| ==> chain[k] !in s
      modifies this, s
      ensures Valid()
      ensures forall e <- chain :: e in old(chain) || e in s
      ensures (forall e <- old(chain) :: e in chain) && forall e <- s :: e in chain
    {
      var element := start;
      ghost var k := 0;
      while element != null
        invariant 0 <= k <= |s| && element == (if k < |s| then s[k] else null)
        invariant Valid()
        invariant forall i {:trigger s[i].next} :: k <= i < |s| ==>
            s[i].next == (if i + 1 < |s| then s[i + 1] else null)
        invariant forall i :: k <= i < |s| ==> s[i] !in chain
        invariant forall e <- chain :: e in old(chain) || e in s
        invariant forall e <- old(chain) :: e in chain
        invariant forall i :: 0 <= i < k ==> s[i] in chain
        decreases |s| - k
      {
        assert s[k].next == (if k + 1 < |s| then s[k + 1] else null);
        var next := element.next;
        Release(element);
        element := next;
        k := k + 1;
      }
    }

    /** Put an element back. */
    method Release(e: Element)
      requires Valid() && e !in chain
      modifies this, e`next
      ensures Valid() && chain == [e] + old(chain)
    {
      e.next := free;
      free := e;
      chain := [e] + chain;
    }
  }

  // ----- one bitmap -----

  class Bitmap {
    var first: Element?
    var current: Element?
    var indx: nat
    ghost var elts: seq<Element>   // the list
    ghost var vals: seq<Val>       // what its elements hold
    ghost var pos: nat             // where `current` is

    /** The list is well formed and the cursor brackets a position: every
        element before `current` is below `indx` and every one after it above.
        `indx` may belong to an element that is no longer there. */
    ghost predicate Valid()
      reads this, elts
    {
      && Linked(elts) && Mirrors(elts, vals) && Canonical(vals)
      && first == First(elts)
      && if elts == [] then current == null
         else pos < |elts| && current == elts[pos] && Brackets(vals, pos, indx)
    }

    /** The cursor is in step with its element. */
    ghost predicate InSync()
      reads this
    {
      0 <= pos < |vals| ==> indx == vals[pos].indx
    }

    /** bitmap_initialize. */
    constructor ()
      ensures Valid() && elts == []
    {
      first, current := null, null;
      indx := 0;
      elts, vals, pos := [], [], 0;
    }

    /** bitmap_find_bit: the element for `bit`, if there is one.  Always leaves
        the cursor in step with an element. */
    method FindBit(bit: nat) returns (element: Element?)
      requires Valid()
      modifies this`current, this`indx, this`pos
      ensures Valid() && InSync()
      ensures element == null ==> NoIndx(vals, IndxOf(bit))
      ensures element != null ==>
                pos < |elts| && element == current == elts[pos] && vals[pos].indx == IndxOf(bit)
    {
      var target := IndxOf(bit);
      if current == null {
        return null;
      }
      var e: Element;
      ghost var k;
      if indx > target {
        e, k := WalkBack(elts, vals, current, pos, target);
      } else {
        e, k := WalkOn(elts, vals, current, pos, target);
      }
      Landing(vals, pos, indx, target, k);
      MoveTo(e, k);
      element := if e.indx != target then null else e;
    }

    /** Make the element at position `k` the current one. */
    method MoveTo(e: Element, ghost k: nat)
      requires Valid() && k < |elts| && e == elts[k] && Brackets(vals, k, vals[k].indx)
      modifies this`current, this`indx, this`pos
      ensures Valid() && InSync() && pos == k && current == e && e.indx == vals[k].indx
    {
      assert elts[k].Value() == vals[k];
      current, indx, pos := e, e.indx, k;
    }
  
    /** bitmap_element_link: put a new element where its index belongs and make
        it the current one.  The cursor must be in step with its element. */
    method Link(element: Element) returns (ghost k: nat)
      requires Valid() && InSync()
      requires element.Value().Proper() && element !in elts && NoIndx(vals, element.indx)
      modifies this, elts, element
      ensures Valid() && InSync() && current == element
      ensures k <= |old(elts)| && elts == With(old(elts), k, element)
      ensures vals == Inserted(old(vals), k, old(element.Value()))
    {
      if first == null {
        k := 0;
        LinkOnly(element);
      } else if element.indx < indx {
        k := LinkBefore(element);
      } else {
        k := LinkAfter(element);
      }
    }

    method LinkOnly(element: Element)
      requires Valid() && elts == [] && element.Value().Proper()
      modifies this, element
      ensures Valid() && InSync() && current == element
      ensures elts == With([], 0, element) && vals == Inserted([], 0, old(element.Value()))
    {
      element.next, element.prev := null, null;
      first := element;
      current, indx := element, element.indx;
      elts, vals, pos := [element], [element.Value()], 0;
    }

    /** An element with value `v` may go in at position `k`. */
    ghost predicate FitsAt(k: nat, v: Val)
      reads this
    {
      k <= |vals| && Canonical(Inserted(vals, k, v)) && Brackets(Inserted(vals, k, v), k, v.indx)
    }

    method LinkBefore(element: Element) returns (ghost k: nat)
      requires Valid() && InSync() && elts != [] && element.indx < indx
      requires element.Value().Proper() && element !in elts && NoIndx(vals, element.indx)
      modifies this, elts, element
      ensures Valid() && InSync() && current == element
      ensures k <= |old(elts)| && elts == With(old(elts), k, element)
      ensures vals == Inserted(old(vals), k, old(element.Value()))
    {
      var ptr;
      ptr, k := SeekBefore(elts, vals, current, pos, element.indx);
      InsertedCanonical(vals, k, element.Value());
      PlaceBefore(element, ptr, k);
    }

    method PlaceBefore(element: Element, ptr: Element, ghost k: nat)
      requires Valid() && k < |elts| && ptr == elts[k] && element !in elts && FitsAt(k, element.Value())
      modifies this, elts, element
      ensures Valid() && InSync() && current == element && elts == With(old(elts), k, element)
      ensures vals == Inserted(old(vals), k, old(element.Value()))
    {
      ghost var s, vs, v := elts, vals, element.Value();
      Distinct(s, vs);
      PrevOf(s, k);
      WithHere(s, vs, k, element, v);
      if ptr.prev == null {
        first := element;
      }
      current, indx := element, element.indx;
      elts, vals, pos := With(s, k, element), Inserted(vs, k, v), k;
      InsertBefore(s, vs, ptr, k, element);
      WithMirrors(s, vs, k, element);
    }

    method LinkAfter(element: Element) returns (ghost k: nat)
      requires Valid() && InSync() && elts != [] && element.indx >= indx
      requires element.Value().Proper() && element !in elts && NoIndx(vals, element.indx)
      modifies this, elts, element
      ensures Valid() && InSync() && current == element
      ensures k <= |old(elts)| && elts == With(old(elts), k, element)
      ensures vals == Inserted(old(vals), k, old(element.Value()))
    {
      assert vals[pos].indx != element.indx;
      var ptr;
      ptr, k := SeekAfter(elts, vals, current, pos, element.indx);
      k := k + 1;
      InsertedCanonical(vals, k, element.Value());
      PlaceAfter(element, ptr, k);
    }

    method PlaceAfter(element: Element, ptr: Element, ghost k: nat)
      requires Valid() && 0 < k <= |elts| && ptr == elts[k - 1] && element !in elts && FitsAt(k, element.Value())
      modifies this, elts, element
      ensures Valid() && InSync() && current == element && elts == With(old(elts), k, element)
      ensures vals == Inserted(old(vals), k, old(element.Value()))
    {
      ghost var s, vs, v := elts, vals, element.Value();
      Distinct(s, vs);
      WithHere(s, vs, k, element, v);
      current, indx := element, element.indx;
      elts, vals, pos := With(s, k, element), Inserted(vs, k, v), k;
      InsertAfter(s, vs, ptr, k - 1, element);
      WithMirrors(s, vs, k, element);
    }

    /** bitmap_element_free: unlink the current element and give it back.  The
        cursor moves to a neighbour but `indx` stays. */
    method ElementFree(pool: FreeList, elt: Element)
      requires Removable() && elt == current
      requires pool.Valid() && forall i :: 0 <= i < |pool.chain| ==> pool.chain[i] !in elts
      modifies this, elts, pool
      ensures Valid() && elts == Without(old(elts), old(pos)) && vals == Removed(old(vals), old(pos))
      ensures pool.Valid() && pool.chain == [elt] + old(pool.chain)
      ensures indx == old(indx)
    {
      Detach(elt);
      pool.Release(elt);
    }

    /** Everything but the current element is well formed. */
    ghost predicate Removable()
      reads this, elts
    {
      && Linked(elts) && Mirrors(elts, vals) && Sorted(vals) && first == First(elts)
      && pos < |elts| && current == elts[pos] && indx == vals[pos].indx && Brackets(vals, pos, indx)
      && forall i :: 0 <= i < |vals| && i != pos ==> vals[i].Proper()
    }

    method Detach(elt: Element)
      requires Removable() && elt == current
      modifies this, elts
      ensures Valid() && elts == Without(old(elts), old(pos)) && vals == Removed(old(vals), old(pos))
      ensures elt !in elts && indx == old(indx)
    {
      ghost var s, vs, k := elts, vals, pos;
      Distinct(s, vs);
      NextOf(s, k);
      PrevOf(s, k);
      RemovedFacts(vs, k, k, indx);
      WithoutHere(s, k);
      var next, prev := elt.next, elt.prev;
      if first == elt {
        first := next;
      }
      if current == elt {
        current := if next != null then next else prev;
      }
      elts, vals := Without(s, k), Removed(vs, k);
      pos := if k + 1 < |s| then k else if k > 0 then k - 1 else 0;
      Unlink(s, vs, elt, k);
      WithoutMirrors(s, vs, k);
    }
  
    // ----- the operations -----

    /** No element of this bitmap is free. */
    ghost predicate Apart(pool: FreeList)
      reads this, pool
    {
      forall i :: 0 <= i < |pool.chain| ==> pool.chain[i] !in elts
    }

    /** bitmap_bit_p. */
    method BitP(bit: nat) returns (r: bool)
      requires Valid()
      modifies this`current, this`indx, this`pos
      ensures Valid()
      ensures r <==> HasBit(vals, bit)
    {
      var ptr := FindBit(bit);
      if ptr == null {
        r := false;
      } else {
        assert elts[pos].Value() == vals[pos];
        UpdatedFacts(vals, pos, vals[pos]);
        r := BitNum(bit) in (if WordNum(bit) == 0 then ptr.bits0 else ptr.bits1);
      }
    }

    /** Replace one word of the current element by its value in `v`. */
    method StoreWord(ptr: Element, wordNum: nat, w: Word, ghost v: Val)
      requires Valid() && InSync() && pos < |elts| && ptr == current && v == (
                 if wordNum == 0 then vals[pos].(bits0 := w) else vals[pos].(bits1 := w))
      modifies this`vals, ptr
      ensures Linked(elts) && Mirrors(elts, vals) && vals == old(vals)[pos := v] && ptr.Value() == v
    {
      Distinct(elts, vals);
      assert elts[pos].Value() == vals[pos];
      assert Mirrors(elts, vals);
      if wordNum == 0 { ptr.bits0 := w; } else { ptr.bits1 := w; }
      vals := vals[pos := v];
    }

    /** Clear `bit` in the current element, and free the element if that was
        its last bit. */
    method ClearCurrent(pool: FreeList, ptr: Element, bit: nat)
      requires Valid() && InSync() && pool.Valid() && Apart(pool)
      requires pos < |elts| && ptr == current && vals[pos].indx == IndxOf(bit)
      modifies this, elts, pool
      ensures Valid() && pool.Valid() && Apart(pool) && Conserves(this, pool)
      ensures Drops(vals, old(vals), bit)
    {
      ClearUpdate(vals, pos, bit);
      assert elts[pos].Value() == vals[pos];
      var word := if WordNum(bit) == 0 then ptr.bits0 else ptr.bits1;
      StoreWord(ptr, WordNum(bit), word - {BitNum(bit)}, ClearVal(vals[pos], bit));
      assert pool.Valid();
      if ptr.bits0 == {} && ptr.bits1 == {} {
        RemoveZero(vals, pos);
        Distinct(elts, vals);
        WithoutMembers(elts, pos);
        assert Removable();
        ElementFree(pool, ptr);
      }
    }

    /** bitmap_clear_bit. */
    method ClearBit(pool: FreeList, bit: nat)
      requires Valid() && pool.Valid() && Apart(pool)
      modifies this, elts, pool
      ensures Valid() && pool.Valid() && Apart(pool) && Conserves(this, pool)
      ensures Drops(vals, old(vals), bit)
    {
      var ptr := FindBit(bit);
      if ptr != null {
        ClearCurrent(pool, ptr, bit);
      } else {
        NoIndxNoBit(vals, bit);
      }
    }

    /** Allocate an element and fill it, without touching this list. */
    method Fetch(pool: FreeList, i: nat, w0: Word, w1: Word) returns (e: Element)
      requires Valid() && pool.Valid() && Apart(pool)
      modifies pool, pool.chain
      ensures Valid() && pool.Valid() && Apart(pool)
      ensures e.Value() == Val(i, w0, w1) && e !in elts && e !in pool.chain
      ensures e in old(pool.chain) || fresh(e)
      ensures forall x <- pool.chain :: x in old(pool.chain)
      ensures forall x <- old(pool.chain) :: x in pool.chain || x == e
    {
      assert forall i :: 0 <= i < |elts| ==> elts[i] !in pool.chain;
      e := pool.Allocate();
      assert e !in elts;
      e.indx, e.bits0, e.bits1 := i, w0, w1;
    }

    /** Link a new element that holds `bit` alone. */
    method AddElement(pool: FreeList, bit: nat)
      requires Valid() && InSync() && pool.Valid() && Apart(pool) && bit < UINT_LIMIT
      requires NoIndx(vals, IndxOf(bit))
      modifies this, elts, pool, pool.chain
      ensures Valid() && pool.Valid() && Apart(pool) && Conserves(this, pool)
      ensures Adds(vals, old(vals), bit)
    {
      var word := {BitNum(bit)};
      var ptr := Fetch(pool, IndxOf(bit),
                       if WordNum(bit) == 0 then word else {}, if WordNum(bit) == 0 then {} else word);
      SingleHas(bit);
      assert ptr.Value() == SingleVal(bit);
      LinkFresh(pool, ptr);
      forall b ensures HasBit(vals, b) <==> HasBit(old(vals), b) || b == bit {
        assert SingleVal(bit).Has(b) <==> b == bit;
      }
    }

    /** bitmap_element_link of an element taken from the free list. */
    method LinkFresh(pool: FreeList, ptr: Element)
      requires Valid() && InSync() && pool.Valid() && Apart(pool)
      requires ptr.Value().Proper() && ptr !in elts && ptr !in pool.chain && NoIndx(vals, ptr.indx)
      modifies this, elts, ptr
      ensures Valid() && InSync() && current == ptr && pool.Valid() && Apart(pool)
      ensures forall e <- elts :: e in old(elts) || e == ptr
      ensures ptr in elts && forall e <- old(elts) :: e in elts
      ensures forall b :: HasBit(vals, b) <==> HasBit(old(vals), b) || old(ptr.Value()).Has(b)
      ensures exists k :: 0 <= k <= |old(vals)| && vals == Inserted(old(vals), k, old(ptr.Value()))
    {
      assert forall i :: 0 <= i < |pool.chain| ==> pool.chain[i] !in elts && pool.chain[i] != ptr;
      ghost var v, vs := ptr.Value(), vals;
      ghost var k := Link(ptr);
      WithMembers(old(elts), k, ptr);
      forall b ensures HasBit(vals, b) <==> HasBit(vs, b) || v.Has(b) {
        InsertedHas(vs, k, v, b);
      }
    }

    /** bitmap_set_bit. */
    method SetBit(pool: FreeList, bit: nat)
      requires Valid() && pool.Valid() && Apart(pool) && bit < UINT_LIMIT
      modifies this, elts, pool, pool.chain
      ensures Valid() && pool.Valid() && Apart(pool) && Conserves(this, pool)
      ensures Adds(vals, old(vals), bit)
    {
      var ptr := FindBit(bit);
      if ptr == null {
        AddElement(pool, bit);
      } else {
        SetUpdate(vals, pos, bit);
        assert elts[pos].Value() == vals[pos];
        var word := if WordNum(bit) == 0 then ptr.bits0 else ptr.bits1;
        StoreWord(ptr, WordNum(bit), word + {BitNum(bit)}, SetVal(vals[pos], bit));
      }
    }
  
    /** Leave the list to someone else and start an empty one. */
    method Forget()
      requires Valid()
      modifies this
      ensures Valid() && InSync() && elts == [] && vals == []
    {
      first, current := null, null;
      elts, vals := [], [];
    }

    /** bitmap_clear. */
    method Clear(pool: FreeList)
      requires Valid() && pool.Valid() && Apart(pool)
      modifies this, elts, pool
      ensures Valid() && elts == [] && vals == [] && InSync()
      ensures pool.Valid() && Apart(pool) && Conserves(this, pool)
      ensures Members(pool.chain) == old(Held(this, pool, null))
    {
      Distinct(elts, vals);
      assert forall k {:trigger elts[k].next} :: 0 <= k < |elts| ==>
          elts[k].next == (if k + 1 < |elts| then elts[k + 1] else null);
      pool.ReleaseAll(first, elts);
      first, current := null, null;
      elts, vals := [], [];
    }

    /** One step of bitmap_copy: a copy of `src` behind the last element. */
    method CopyElement(pool: FreeList, last: Element?, src: Element) returns (e: Element)
      requires Valid() && InSync() && (elts != [] ==> pos == 0) && pool.Valid() && Apart(pool)
      requires src !in elts && src !in pool.chain && src.Value().Proper() && Below(vals, src.indx)
      requires last == if elts == [] then null else elts[|elts| - 1]
      modifies this, pool, Held(this, pool, null)
      ensures Valid() && InSync() && pos == 0 && pool.Valid() && Apart(pool)
      ensures elts == old(elts) + [e] && vals == old(vals) + [old(src.Value())]
      ensures Conserves(this, pool)
    {
      e := Fetch(pool, src.indx, src.bits0, src.bits1);
      assert forall i :: 0 <= i < |pool.chain| ==> pool.chain[i] !in elts && pool.chain[i] != e;
      Append(last, e);
    }

    /** One result of bitmap_operation.  The scratch element `toPtr` is allocated
        when missing, filled, and linked if it came out nonzero. */
    method Emit(pool: FreeList, toPtr: Element?, i: nat, w0: Word, w1: Word, ghost keep: Sources)
      returns (rest: Element?)
      requires Valid() && InSync() && pool.Valid() && Apart(pool) && Scratch(toPtr, pool, keep)
      requires keep.Kept(elts, pool.chain)
      requires (w0 != {} || w1 != {} ==> Val(i, w0, w1).Proper()) && Below(vals, i)
      modifies this, elts, pool, pool.chain, toPtr
      ensures Valid() && InSync() && pool.Valid() && Apart(pool) && Scratch(rest, pool, keep)
      ensures keep.Kept(elts, pool.chain)
      ensures Below(vals, i + 1)
      ensures forall b :: HasBit(vals, b) <==> HasBit(old(vals), b) || Val(i, w0, w1).Has(b)
      ensures ScratchConserves(this, pool, toPtr, rest)
    {
      rest := Provide(pool, toPtr, i, w0, w1, keep);
      if w0 != {} || w1 != {} {
        LinkScratch(pool, rest, keep);
        rest := null;
      }
    }

    /** The scratch element, fetched if there is none, with the words in it. */
    method Provide(pool: FreeList, toPtr: Element?, i: nat, w0: Word, w1: Word, ghost keep: Sources)
      returns (e: Element)
      requires Valid() && InSync() && pool.Valid() && Apart(pool) && Scratch(toPtr, pool, keep)
      requires keep.Kept(elts, pool.chain)
      modifies pool, pool.chain, toPtr
      ensures Valid() && InSync() && pool.Valid() && Apart(pool) && Scratch(e, pool, keep)
      ensures keep.Kept(elts, pool.chain) && e.Value() == Val(i, w0, w1)
      ensures ScratchConserves(this, pool, toPtr, e)
    {
      if toPtr == null {
        e := Fetch(pool, i, w0, w1);
      } else {
        e := toPtr;
        Fill(e, pool, keep, i, w0, w1);
      }
    }

    method Fill(e: Element, pool: FreeList, ghost keep: Sources, i: nat, w0: Word, w1: Word)
      requires Valid() && pool.Valid() && Scratch(e, pool, keep) && keep.Kept(elts, pool.chain)
      modifies e
      ensures Valid() && pool.Valid() && keep.Kept(elts, pool.chain) && e.Value() == Val(i, w0, w1)
    {
      e.indx, e.bits0, e.bits1 := i, w0, w1;
    }

    method LinkScratch(pool: FreeList, e: Element, ghost keep: Sources)
      requires Valid() && InSync() && pool.Valid() && Apart(pool) && Scratch(e, pool, keep)
      requires keep.Kept(elts, pool.chain) && e.Value().Proper() && Below(vals, e.indx)
      modifies this, elts, e
      ensures Valid() && InSync() && pool.Valid() && Apart(pool)
      ensures keep.Kept(elts, pool.chain) && Below(vals, old(e.indx) + 1)
      ensures forall b :: HasBit(vals, b) <==> HasBit(old(vals), b) || old(e.Value()).Has(b)
      ensures forall x <- elts :: x in old(elts) || x == e
      ensures e in elts && forall x <- old(elts) :: x in elts
    {
      ghost var v, vs := e.Value(), vals;
      LinkFresh(pool, e);
      ghost var k :| 0 <= k <= |vs| && vals == Inserted(vs, k, v);
      InsertedBelow(vs, k, v);
    }

    /** The scratch element is on no list. */
    ghost predicate Scratch(p: Element?, pool: FreeList, keep: Sources)
      reads this, pool
    {
      p != null ==> p !in elts && p !in pool.chain && p !in keep.s && p !in keep.t
    }

    /** The special case of linking that bitmap_copy uses: behind the last element. */
    method Append(last: Element?, e: Element)
      requires Valid() && e.Value().Proper() && e !in elts && Below(vals, e.indx) && InSync() &&
          (elts != [] ==> pos == 0)
      requires last == if elts == [] then null else elts[|elts| - 1]
      modifies this, last, e
      ensures Valid() && InSync() && pos == 0
      ensures elts == old(elts) + [e] && vals == old(vals) + [old(e.Value())]
    {
      if last == null {
        LinkOnly(e);
      } else {
        AppendLast(last, e);
      }
    }

    method AppendLast(last: Element, e: Element)
      requires Valid() && e.Value().Proper() && e !in elts && Below(vals, e.indx) && InSync()
      requires elts != [] && pos == 0 && last == elts[|elts| - 1]
      modifies this, last, e
      ensures Valid() && InSync() && pos == 0
      ensures elts == old(elts) + [e] && vals == old(vals) + [old(e.Value())]
    {
      ghost var s, vs, v := elts, vals, e.Value();
      AppendedCanonical(vs, v);
      Distinct(s, vs);
      AppendedBrackets(vs, v, indx);
      elts, vals := s + [e], vs + [v];
      LinkLast(s, vs, last, e);
    }
  }

  ghost predicate DisjointLists(a: seq<Element>, b: seq<Element>) {
    forall i :: 0 <= i < |a| ==> a[i] !in b
  }

  /** The two lists an operation reads: their elements and values. */
  datatype Sources = Sources(s: seq<Element>, vs: seq<Val>, t: seq<Element>, ws: seq<Val>) {
    /** The lists are intact and share no element with those being changed. */
    ghost predicate Kept(elts: seq<Element>, chain: seq<Element>)
      reads s, t
    {
      && Linked(s) && Mirrors(s, vs) && DisjointLists(s, elts) && DisjointLists(s, chain)
      && Linked(t) && Mirrors(t, ws) && DisjointLists(t, elts) && DisjointLists(t, chain)
    }

    /** The pointers are at element `i` of the first list and `j` of the second. */
    ghost predicate At(p: Element?, i: nat, q: Element?, j: nat) {
      && i <= |s| && p == (if i < |s| then s[i] else null)
      && j <= |t| && q == (if j < |t| then t[j] else null)
    }
  }

  ghost function Members(s: seq<Element>): set<Element> { set e | e in s }

  ghost function Held(b: Bitmap, pool: FreeList, p: Element?): set<Element>
    reads b, pool
  {
    Members(b.elts) + Members(pool.chain) + if p == null then {} else {p}
  }

  /** Like Conserves, with a scratch element before (`p`) and after (`r`). */
  twostate predicate ScratchConserves(b: Bitmap, pool: FreeList, p: Element?, new r: Element?)
    reads b, pool
  {
    old(Held(b, pool, p)) <= Held(b, pool, r) && forall e <- Held(b, pool, r) :: e in old(Held(b, pool, p)) || fresh(e)
  }

  /** What holds between the rounds of bitmap_operation: the sources are intact,
      `to` holds the result so far, and the pointers are at the elements to come. */
  ghost predicate MergeState(pool: FreeList, to: Bitmap, p1: Element?, p2: Element?, scratch: Element?, op: BitOp,
                             keep: Sources, i: nat, j: nat)
    reads pool, pool.chain, to, to.elts, keep.s, keep.t
  {
    && to.Valid() && to.InSync() && pool.Valid() && to.Apart(pool) && to.Scratch(scratch, pool, keep)
    && keep.Kept(to.elts, pool.chain) && MergeAt(op, to.vals, keep.vs, i, keep.ws, j)
    && keep.At(p1, i, p2, j)
  }

  lemma MergeBegin(pool: FreeList, to: Bitmap, start1: Element?, start2: Element?, op: BitOp, keep: Sources)
    requires to.Valid() && to.InSync() && to.elts == [] && pool.Valid() && keep.Kept(to.elts, pool.chain)
    requires Canonical(keep.vs) && Canonical(keep.ws) && start1 == First(keep.s) && start2 == First(keep.t)
    ensures MergeState(pool, to, start1, start2, null, op, keep, 0, 0)
  {
    MergeStart(op, keep.vs, keep.ws);
  }

  /** The loop of bitmap_operation: merge the two source lists into the empty `to`. */
  method Merge(pool: FreeList, to: Bitmap, start1: Element?, start2: Element?, op: BitOp, ghost keep: Sources)
    returns (rest: Element?)
    requires to.Valid() && to.InSync() && to.elts == [] && pool.Valid() && keep.Kept(to.elts, pool.chain)
    requires Canonical(keep.vs) && Canonical(keep.ws) && start1 == First(keep.s) && start2 == First(keep.t)
    modifies to, pool, Held(to, pool, null)
    ensures MergeState(pool, to, null, null, rest, op, keep, |keep.s|, |keep.t|)
    ensures ScratchConserves(to, pool, null, rest)
  {
    var ptr1, ptr2 := start1, start2;
    rest := null;
    ghost var i, j, h := 0, 0, Held(to, pool, null);
    MergeBegin(pool, to, start1, start2, op, keep);
    while ptr1 != null || ptr2 != null
      invariant MergeState(pool, to, ptr1, ptr2, rest, op, keep, i, j)
      invariant h <= Held(to, pool, rest) && forall e <- Held(to, pool, rest) :: e in h || fresh(e)
      decreases |keep.s| - i + |keep.t| - j
    {
      ptr1, ptr2, rest, i, j := MergeOne(pool, to, ptr1, ptr2, rest, op, keep, i, j);
    }
    assert i == |keep.s| && j == |keep.t|;
  }

  /** One round of the loop of bitmap_operation. */
  method MergeOne(pool: FreeList, to: Bitmap, p1: Element?, p2: Element?, scratch: Element?, op: BitOp,
                  ghost keep: Sources, ghost i: nat, ghost j: nat)
    returns (q1: Element?, q2: Element?, rest: Element?, ghost i': nat, ghost j': nat)
    requires MergeState(pool, to, p1, p2, scratch, op, keep, i, j) && (p1 != null || p2 != null)
    modifies to, pool, Held(to, pool, scratch)
    ensures MergeState(pool, to, q1, q2, rest, op, keep, i', j') && i' + j' > i + j
    ensures ScratchConserves(to, pool, scratch, rest)
  {
    ghost var s, vs, t, ws := keep.s, keep.vs, keep.t, keep.ws;
    assert i < |s| ==> s[i].Value() == vs[i];
    assert j < |t| ==> t[j].Value() == ws[j];
    q1, q2 := p1, p2;
    var indx1 := if p1 != null then p1.indx else NO_INDX;
    var indx2 := if p2 != null then p2.indx else NO_INDX;
    var indx := if indx1 <= indx2 then indx1 else indx2;
    var a0, a1, b0, b1 := {}, {}, {}, {};
    MergeBounds(op, to.vals, vs, i, ws, j, indx);
    if indx1 <= indx2 {
      a0, a1 := p1.bits0, p1.bits1;
      NextOf(s, i);
      q1 := p1.next;
    }
    if indx2 <= indx1 {
      b0, b1 := p2.bits0, p2.bits1;
      NextOf(t, j);
      q2 := p2.next;
    }
    ghost var ts := to.vals;
    rest := to.Emit(pool, scratch, indx, ApplyWord(op, a0, b0), ApplyWord(op, a1, b1), keep);
    MergeRound(op, ts, to.vals, vs, i, ws, j, indx);
    i', j' := After(vs, i, indx), After(ws, j, indx);
  }

  lemma MergeDone(pool: FreeList, to: Bitmap, rest: Element?, op: BitOp, keep: Sources)
    requires MergeState(pool, to, null, null, rest, op, keep, |keep.s|, |keep.t|)
    ensures to.Valid() && pool.Valid() && to.Apart(pool) && to.Scratch(rest, pool, keep)
    ensures keep.Kept(to.elts, pool.chain)
    ensures Combines(op, to.vals, keep.vs, keep.ws)
  {
    assert keep.vs[..|keep.vs|] == keep.vs && keep.ws[..|keep.ws|] == keep.ws;
  }

  /** bitmap_operation, whichever of the three bitmaps are the same. */
  method Operation(pool: FreeList, to: Bitmap, from1: Bitmap, from2: Bitmap, op: BitOp)
    requires Separate(pool, to, from1) && Separate(pool, to, from2)
    modifies to, pool, Held(to, pool, null)
    ensures to.Valid() && pool.Valid() && to.Apart(pool) && Conserves(to, pool)
    ensures Combines(op, to.vals, old(from1.vals), old(from2.vals))
  {
    if to == from1 || to == from2 {
      OperationInPlace(pool, to, from1, from2, op);
    } else {
      OperationAway(pool, to, from1, from2, op);
    }
  }

  /** The result replaces a source: its old list is read first and freed last. */
  method OperationInPlace(pool: FreeList, to: Bitmap, from1: Bitmap, from2: Bitmap, op: BitOp)
    requires Separate(pool, to, from1) && Separate(pool, to, from2) && (to == from1 || to == from2)
    modifies to, pool, Held(to, pool, null)
    ensures to.Valid() && pool.Valid() && to.Apart(pool) && Conserves(to, pool)
    ensures Combines(op, to.vals, old(from1.vals), old(from2.vals))
  {
    ghost var keep := Sources(from1.elts, from1.vals, from2.elts, from2.vals);
    var start1, start2 := from1.first, from2.first;
    var deleteList := to.first;
    ghost var dl := to.elts;
    SetAside(pool, to, from1, from2);
    MergeAndFree(pool, to, start1, start2, op, keep, deleteList, dl);
  }

  /** The target forgets its list, which is one of the sources. */
  method SetAside(pool: FreeList, to: Bitmap, from1: Bitmap, from2: Bitmap)
    requires Separate(pool, to, from1) && Separate(pool, to, from2)
    modifies to
    ensures to.Valid() && to.InSync() && to.elts == [] && pool.Valid() && AllDistinct(old(to.elts))
    ensures old(Sources(from1.elts, from1.vals, from2.elts, from2.vals)).Kept(to.elts, pool.chain)
    ensures Held(to, pool, null) + Members(old(to.elts)) == old(Held(to, pool, null))
  {
    Distinct(to.elts, to.vals);
    ReadyToRead(pool, from1, from2);
    ghost var keep := Sources(from1.elts, from1.vals, from2.elts, from2.vals);
    ghost var kept, valid := keep.Kept([], pool.chain), pool.Valid();
    to.Forget();
    assert keep.Kept([], pool.chain) == kept && pool.Valid() == valid;
  }

  /** The result goes to a third bitmap, whose old list is freed first. */
  method OperationAway(pool: FreeList, to: Bitmap, from1: Bitmap, from2: Bitmap, op: BitOp)
    requires Separate(pool, to, from1) && Separate(pool, to, from2) && to != from1 && to != from2
    modifies to, pool, Held(to, pool, null)
    ensures to.Valid() && pool.Valid() && to.Apart(pool) && Conserves(to, pool)
    ensures Combines(op, to.vals, old(from1.vals), old(from2.vals))
  {
    ghost var keep := Sources(from1.elts, from1.vals, from2.elts, from2.vals);
    var start1, start2 := from1.first, from2.first;
    SeparateHeld(pool, to, from1);
    SeparateHeld(pool, to, from2);
    to.Clear(pool);
    KeptIntro(pool, to, keep);
    MergeAndFree(pool, to, start1, start2, op, keep, null, []);
  }

  /** The loop of bitmap_operation and what follows it. */
  method MergeAndFree(pool: FreeList, to: Bitmap, start1: Element?, start2: Element?, op: BitOp, ghost keep: Sources,
                      deleteList: Element?, ghost dl: seq<Element>)
    requires to.Valid() && to.InSync() && to.elts == [] && pool.Valid() && keep.Kept(to.elts, pool.chain)
    requires Canonical(keep.vs) && Canonical(keep.ws) && start1 == First(keep.s) && start2 == First(keep.t)
    requires deleteList == First(dl) && (dl == [] || dl == keep.s || dl == keep.t) && AllDistinct(dl)
    modifies to, pool, Held(to, pool, null), dl
    ensures to.Valid() && pool.Valid() && to.Apart(pool)
    ensures Combines(op, to.vals, keep.vs, keep.ws)
    ensures old(Held(to, pool, null)) + Members(dl) <= Held(to, pool, null)
    ensures forall e <- Held(to, pool, null) :: e in old(Held(to, pool, null)) + Members(dl) || fresh(e)
  {
    var rest := Merge(pool, to, start1, start2, op, keep);
    MergeDone(pool, to, rest, op, keep);
    Finish(pool, to, rest, deleteList, dl);
  }

  lemma ReadyToRead(pool: FreeList, from1: Bitmap, from2: Bitmap)
    requires pool.Valid() && from1.Valid() && from2.Valid() && from1.Apart(pool) && from2.Apart(pool)
    ensures Sources(from1.elts, from1.vals, from2.elts, from2.vals).Kept([], pool.chain)
  {
  }

  lemma SeparateHeld(pool: FreeList, to: Bitmap, from: Bitmap)
    requires Separate(pool, to, from) && to != from
    ensures forall e <- from.elts :: e !in Held(to, pool, null)
  {
  }

  lemma SeparateIntro(pool: FreeList, to: Bitmap, from: Bitmap)
    requires to.Valid() && pool.Valid() && to.Apart(pool) && from.Valid()
    requires forall e <- from.elts :: e !in Held(to, pool, null)
    ensures Separate(pool, to, from)
  {
    forall i | 0 <= i < |pool.chain| ensures pool.chain[i] !in from.elts {
      assert pool.chain[i] in Held(to, pool, null);
    }
    forall i | 0 <= i < |from.elts| ensures from.elts[i] !in to.elts {
      assert from.elts[i] in from.elts;
    }
  }

  lemma KeptIntro(pool: FreeList, to: Bitmap, keep: Sources)
    requires Linked(keep.s) && Mirrors(keep.s, keep.vs) && Linked(keep.t) && Mirrors(keep.t, keep.ws)
    requires forall e <- keep.s :: e !in Held(to, pool, null)
    requires forall e <- keep.t :: e !in Held(to, pool, null)
    ensures keep.Kept(to.elts, pool.chain)
  {
    assert forall i :: 0 <= i < |keep.s| ==> keep.s[i] in keep.s;
    assert forall i :: 0 <= i < |keep.t| ==> keep.t[i] in keep.t;
  }

  /** Two bitmaps, possibly the same one, and the free list share no elements. */
  ghost predicate Separate(pool: FreeList, to: Bitmap, from: Bitmap)
    reads pool, pool.chain, to, to.elts, from, from.elts
  {
    && pool.Valid() && to.Valid() && from.Valid() && to.Apart(pool) && from.Apart(pool)
    && (to != from ==> DisjointLists(from.elts, to.elts))
  }

  lemma SeparateSym(pool: FreeList, a: Bitmap, b: Bitmap)
    requires Separate(pool, a, b)
    ensures Separate(pool, b, a)
  {
    if a != b {
      forall i | 0 <= i < |a.elts| ensures a.elts[i] !in b.elts {
        assert forall j :: 0 <= j < |b.elts| ==> b.elts[j] != a.elts[i] by {
          forall j | 0 <= j < |b.elts| ensures b.elts[j] != a.elts[i] {
            assert b.elts[j] !in a.elts;
          }
        }
      }
    }
  }

  /** bitmap_operation into a fresh bitmap that stays separate from `other`. */
  method OperationToNew(pool: FreeList, from1: Bitmap, from2: Bitmap, op: BitOp, ghost other: Bitmap)
      returns (tmp: Bitmap)
    requires Separate(pool, from1, from2) && Separate(pool, from1, other) && Separate(pool, from2, other)
    modifies pool, pool.chain
    ensures fresh(tmp) && Separate(pool, other, tmp) && other.vals == old(other.vals)
    ensures Combines(op, tmp.vals, old(from1.vals), old(from2.vals))
    ensures old(Members(pool.chain)) <= Held(tmp, pool, null)
    ensures forall e <- Held(tmp, pool, null) :: e in old(Members(pool.chain)) || fresh(e)
  {
    tmp := new Bitmap();
    EmptySeparate(pool, tmp, from1);
    EmptySeparate(pool, tmp, from2);
    EmptySeparate(pool, tmp, other);
    OperationBeside(pool, tmp, from1, from2, op, other);
    SeparateSym(pool, tmp, other);
  }

  lemma EmptySeparate(pool: FreeList, to: Bitmap, from: Bitmap)
    requires to.Valid() && to.elts == [] && pool.Valid() && from.Valid() && from.Apart(pool)
    ensures Separate(pool, to, from) && Held(to, pool, null) == Members(pool.chain)
  {
  }

  /** bitmap_operation with a bystander. */
  method OperationBeside(pool: FreeList, to: Bitmap, from1: Bitmap, from2: Bitmap, op: BitOp, ghost other: Bitmap)
    requires Separate(pool, to, from1) && Separate(pool, to, from2) && Separate(pool, to, other) && to != other
    modifies to, pool, Held(to, pool, null)
    ensures Separate(pool, to, other) && Conserves(to, pool)
    ensures Combines(op, to.vals, old(from1.vals), old(from2.vals))
  {
    SeparateHeld(pool, to, other);
    Operation(pool, to, from1, from2, op);
    assert other.Valid() == old(other.Valid());
    SeparateIntro(pool, to, other);
  }

  /** bitmap_ior_and_compl, whichever of the three bitmaps are the same. */
  method IorAndCompl(pool: FreeList, to: Bitmap, from1: Bitmap, from2: Bitmap)
    requires Separate(pool, from1, from2) && Separate(pool, from1, to) && Separate(pool, from2, to)
    modifies to, pool, Held(to, pool, null)
    ensures to.Valid() && pool.Valid() && to.Apart(pool) && Conserves(to, pool)
    ensures forall b :: HasBit(to.vals, b) <==>
                        HasBit(old(to.vals), b) || (HasBit(old(from1.vals), b) && !HasBit(old(from2.vals), b))
  {
    var tmp := OperationToNew(pool, from1, from2, AndCompl, to);
    AddAll(pool, to, tmp);
  }

  /** The last two steps of bitmap_ior_and_compl: `to` gains the bits of `tmp`,
      and `tmp` is cleared. */
  method AddAll(pool: FreeList, to: Bitmap, tmp: Bitmap)
    requires Separate(pool, to, tmp) && to != tmp
    modifies to, tmp, pool, Held(to, pool, null), Members(tmp.elts)
    ensures Separate(pool, tmp, to)
    ensures Combines(Ior, to.vals, old(to.vals), old(tmp.vals))
    ensures old(Held(to, pool, null)) + old(Members(tmp.elts)) <= Held(to, pool, null)
    ensures forall e <- Held(to, pool, null) :: e in old(Held(to, pool, null)) + old(Members(tmp.elts)) || fresh(e)
  {
    OperationBeside(pool, to, to, tmp, Ior, tmp);
    SeparateSym(pool, to, tmp);
    ghost var h, r := Held(to, pool, null), to.vals;
    ClearBeside(pool, tmp, to);
    assert to.vals == r;
  }

  /** bitmap_clear with a bystander. */
  method ClearBeside(pool: FreeList, b: Bitmap, ghost other: Bitmap)
    requires Separate(pool, b, other) && b != other
    modifies b, Members(b.elts), pool
    ensures Separate(pool, b, other) && b.elts == []
    ensures Held(other, pool, null) == old(Held(other, pool, null)) + old(Members(b.elts))
  {
    SeparateHeld(pool, b, other);
    ghost var h := Held(b, pool, null);
    b.Clear(pool);
    assert Members(pool.chain) == h;
    SeparateIntro(pool, b, other);
  }

  /** Give back a scratch element and the old list that bitmap_operation replaced. */
  method Finish(pool: FreeList, to: Bitmap, rest: Element?, deleteList: Element?, ghost dl: seq<Element>)
    requires to.Valid() && pool.Valid() && to.Apart(pool)
    requires rest != null ==> rest !in to.elts && rest !in pool.chain && rest !in dl
    requires deleteList == First(dl) && AllDistinct(dl) && Linked(dl) && DisjointLists(dl, to.elts) &&
        DisjointLists(dl, pool.chain)
    modifies pool, dl, rest
    ensures to.Valid() && pool.Valid() && to.Apart(pool)
    ensures Held(to, pool, null) == old(Held(to, pool, rest)) + Members(dl)
  {
    if rest != null {
      pool.Release(rest);
    }
    assert forall k :: 0 <= k < |pool.chain| ==> pool.chain[k] !in dl;
    ghost var before := pool.chain;
    assert forall e <- before :: e !in to.elts;
    assert forall e <- dl :: e !in to.elts;
    pool.ReleaseAll(deleteList, dl);
    assert forall e <- pool.chain :: e !in to.elts;
  }

  /** bitmap_copy, for two different bitmaps. */
  method Copy(pool: FreeList, to: Bitmap, from: Bitmap)
    requires to != from && Separate(pool, to, from)
    modifies to, pool, Held(to, pool, null)
    ensures to.Valid() && pool.Valid() && to.Apart(pool) && Conserves(to, pool)
    ensures to.vals == old(from.vals)
  {
    SeparateHeld(pool, to, from);
    to.Clear(pool);
    CopyInto(pool, to, from);
  }

  /** What holds between the rounds of bitmap_copy: the first `k` elements of
      the source list `s` are copied. */
  ghost predicate CopyState(pool: FreeList, to: Bitmap, s: seq<Element>, vs: seq<Val>, k: nat, toPtr: Element?)
    reads pool, pool.chain, to, to.elts, s
  {
    && Linked(s) && Mirrors(s, vs) && Canonical(vs) && k <= |s|
    && to.Valid() && to.InSync() && pool.Valid() && to.Apart(pool)
    && to.vals == vs[..k] && (to.elts != [] ==> to.pos == 0)
    && toPtr == (if to.elts == [] then null else to.elts[|to.elts| - 1])
    && (forall e <- s :: e !in Held(to, pool, null))
  }

  method CopyOne(pool: FreeList, to: Bitmap, fromPtr: Element, toPtr: Element?,
                 ghost s: seq<Element>, ghost vs: seq<Val>,
                 ghost k: nat)
    returns (next: Element?, last: Element)
    requires CopyState(pool, to, s, vs, k, toPtr) && k < |s| && fromPtr == s[k]
    modifies to, pool, Held(to, pool, null)
    ensures CopyState(pool, to, s, vs, k + 1, last) && Conserves(to, pool)
    ensures next == if k + 1 < |s| then s[k + 1] else null
  {
    assert s[k].Value() == vs[k] && s[k] in s;
    NextOf(s, k);
    PrefixStep(vs, k);
    next := fromPtr.next;
    last := to.CopyElement(pool, toPtr, fromPtr);
  }

  /** The loop of bitmap_copy. */
  method CopyInto(pool: FreeList, to: Bitmap, from: Bitmap)
    requires to != from && to.Valid() && to.InSync() && to.elts == [] && from.Valid() && pool.Valid()
    requires forall e <- from.elts :: e !in Held(to, pool, null)
    modifies to, pool, Held(to, pool, null)
    ensures to.Valid() && pool.Valid() && to.Apart(pool) && Conserves(to, pool)
    ensures to.vals == old(from.vals)
  {
    ghost var s, vs := from.elts, from.vals;
    var fromPtr := from.first;
    var toPtr: Element? := null;
    ghost var k := 0;
    while fromPtr != null
      invariant CopyState(pool, to, s, vs, k, toPtr) && fromPtr == (if k < |s| then s[k] else null)
      invariant Conserves(to, pool)
      decreases |s| - k
    {
      ghost var h := Held(to, pool, null);
      fromPtr, toPtr := CopyOne(pool, to, fromPtr, toPtr, s, vs, k);
      assert h <= Held(to, pool, null) && forall e <- Held(to, pool, null) :: e in h || fresh(e);
      k := k + 1;
    }
    assert vs[..k] == vs;
  }

  /** Link `e` behind the last element. */
  method LinkLast(ghost s: seq<Element>, ghost vs: seq<Val>, last: Element, e: Element)
    requires Linked(s) && Mirrors(s, vs) && AllDistinct(s) && s != [] && last == s[|s| - 1] && e !in s
    modifies last, e
    ensures Linked(s + [e]) && Mirrors(s + [e], vs + [old(e.Value())])
  {
    e.prev := last;
    e.next := null;
    last.next := e;
    assert forall i :: 0 <= i < |s| ==> s[i].Value() == old(s[i].Value());
  }

  /** Between them, the bitmap and the free list hold what they held before and
      elements that did not exist before, nothing else and nothing less. */
  twostate predicate Conserves(b: Bitmap, pool: FreeList)
    reads b, pool
  {
    ScratchConserves(b, pool, null, null)
  }
}
