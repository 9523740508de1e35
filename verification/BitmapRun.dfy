/** Runs of bitmap operations over many bitmaps that share one free list. */
module BitmapRun {
  import opened BitmapValues
  import opened Bitmaps

  /** One call, on bitmaps named by their number. */
  datatype Command =
    | SetBit(i: nat, bit: nat)
    | ClearBit(i: nat, bit: nat)
    | TestBit(i: nat, bit: nat)
    | ClearAll(i: nat)
    | CopyFrom(i: nat, j: nat)
    | Operate(i: nat, j: nat, k: nat, op: BitOp)
    | OrAndCompl(i: nat, j: nat, k: nat)

  /** Numbers are in range, bits are unsigned ints, and a copy has two ends. */
  predicate Legal(c: Command, n: nat) {
    && c.i < n
    && (c.SetBit? ==> c.bit < UINT_LIMIT)
    && (c.CopyFrom? ==> c.j < n && c.i != c.j)
    && (c.Operate? || c.OrAndCompl? ==> c.j < n && c.k < n)
  }

  /** The bits a list stands for. */
  ghost function SetOf(vs: seq<Val>): iset<nat> { iset b: nat | HasBit(vs, b) }

  ghost function ApplySets(op: BitOp, a: iset<nat>, b: iset<nat>): iset<nat> {
    match op
    case And => a * b
    case AndCompl => a - b
    case Ior => a + b
  }

  /** What a command makes of the set of the bitmap it changes. */
  ghost function Result(ms: seq<iset<nat>>, c: Command): iset<nat>
    requires Legal(c, |ms|)
  {
    match c
    case SetBit(i, bit) => ms[i] + iset{bit}
    case ClearBit(i, bit) => ms[i] - iset{bit}
    case TestBit(i, _) => ms[i]
    case ClearAll(_) => iset{}
    case CopyFrom(_, j) => ms[j]
    case Operate(_, j, k, op) => ApplySets(op, ms[j], ms[k])
    case OrAndCompl(i, j, k) => ms[i] + (ms[j] - ms[k])
  }

  /** What a command means for plain sets: one changes, the others do not. */
  ghost function Effect(ms: seq<iset<nat>>, c: Command): seq<iset<nat>>
    requires Legal(c, |ms|)
  {
    ms[c.i := Result(ms, c)]
  }

  ghost function Effects(ms: seq<iset<nat>>, cs: seq<Command>): seq<iset<nat>>
    requires forall c <- cs :: Legal(c, |ms|)
    ensures |Effects(ms, cs)| == |ms|
  {
    if cs == [] then ms else Effect(Effects(ms, cs[..|cs| - 1]), cs[|cs| - 1])
  }

  ghost function AllElements(bs: seq<Bitmap>): set<Element>
    reads bs
  {
    set b, e | b in bs && e in b.elts :: e
  }

  /** Every bitmap and the free list are well formed and no element is on two lists. */
  ghost predicate World(pool: FreeList, bs: seq<Bitmap>)
    reads pool, pool.chain, bs, AllElements(bs)
  {
    && pool.Valid()
    && (forall i :: 0 <= i < |bs| ==>
          Members(bs[i].elts) <= AllElements(bs) && bs[i].Valid() && bs[i].Apart(pool))
    && (forall i, j :: 0 <= i < |bs| && 0 <= j < |bs| && i != j ==>
          bs[i] != bs[j] && Members(bs[i].elts) !! Members(bs[j].elts))
  }

  ghost function Sets(bs: seq<Bitmap>): seq<iset<nat>>
    reads bs
  {
    seq(|bs|, i requires 0 <= i < |bs| reads bs => SetOf(bs[i].vals))
  }

  lemma WorldSeparate(pool: FreeList, bs: seq<Bitmap>, i: nat, j: nat)
    requires World(pool, bs) && i < |bs| && j < |bs|
    ensures Separate(pool, bs[i], bs[j])
    ensures i != j ==> Members(bs[j].elts) !! Held(bs[i], pool, null)
  {
    if i != j {
      forall k | 0 <= k < |bs[j].elts| ensures bs[j].elts[k] !in bs[i].elts {
        assert bs[j].elts[k] in Members(bs[j].elts);
      }
      forall e | e in bs[j].elts ensures e !in pool.chain {
        assert bs[j].Apart(pool);
      }
    }
  }

  lemma SetsAfter(vs: seq<Val>, ws: seq<Val>, bit: nat)
    ensures Adds(vs, ws, bit) ==> SetOf(vs) == SetOf(ws) + iset{bit}
    ensures Drops(vs, ws, bit) ==> SetOf(vs) == SetOf(ws) - iset{bit}
  {
  }

  lemma CombinesSets(op: BitOp, ts: seq<Val>, vs: seq<Val>, ws: seq<Val>)
    requires Combines(op, ts, vs, ws)
    ensures SetOf(ts) == ApplySets(op, SetOf(vs), SetOf(ws))
  {
  }

  /** One command, on the bitmap it changes. */
  method Change(pool: FreeList, bs: seq<Bitmap>, c: Command) returns (bit: bool)
    requires World(pool, bs) && Legal(c, |bs|)
    modifies bs[c.i], pool, Held(bs[c.i], pool, null)
    ensures bs[c.i].Valid() && pool.Valid() && bs[c.i].Apart(pool) && Conserves(bs[c.i], pool)
    ensures SetOf(bs[c.i].vals) == Result(old(Sets(bs)), c)
    ensures c.TestBit? ==> bit == (c.bit in old(SetOf(bs[c.i].vals)))
  {
    bit := false;
    if c.Operate? {
      ChangeByOperation(pool, bs, c);
    } else if c.OrAndCompl? {
      ChangeByOrAndCompl(pool, bs, c);
    } else if c.CopyFrom? {
      ChangeByCopy(pool, bs, c);
    } else {
      bit := DoAlone(pool, bs[c.i], c);
    }
  }

  method ChangeByOperation(pool: FreeList, bs: seq<Bitmap>, c: Command)
    requires World(pool, bs) && Legal(c, |bs|) && c.Operate?
    modifies bs[c.i], pool, Held(bs[c.i], pool, null)
    ensures bs[c.i].Valid() && pool.Valid() && bs[c.i].Apart(pool) && Conserves(bs[c.i], pool)
    ensures SetOf(bs[c.i].vals) == Result(old(Sets(bs)), c)
  {
    ghost var ms := Sets(bs);
    WorldSeparate(pool, bs, c.i, c.j);
    WorldSeparate(pool, bs, c.i, c.k);
    assert ms[c.j] == SetOf(bs[c.j].vals) && ms[c.k] == SetOf(bs[c.k].vals);
    DoOperate(pool, bs[c.i], bs[c.j], bs[c.k], c.op);
  }

  method ChangeByOrAndCompl(pool: FreeList, bs: seq<Bitmap>, c: Command)
    requires World(pool, bs) && Legal(c, |bs|) && c.OrAndCompl?
    modifies bs[c.i], pool, Held(bs[c.i], pool, null)
    ensures bs[c.i].Valid() && pool.Valid() && bs[c.i].Apart(pool) && Conserves(bs[c.i], pool)
    ensures SetOf(bs[c.i].vals) == Result(old(Sets(bs)), c)
  {
    ghost var ms := Sets(bs);
    WorldSeparate(pool, bs, c.j, c.k);
    WorldSeparate(pool, bs, c.j, c.i);
    WorldSeparate(pool, bs, c.k, c.i);
    assert ms[c.j] == SetOf(bs[c.j].vals) && ms[c.k] == SetOf(bs[c.k].vals);
    DoOrAndCompl(pool, bs[c.i], bs[c.j], bs[c.k]);
  }

  method ChangeByCopy(pool: FreeList, bs: seq<Bitmap>, c: Command)
    requires World(pool, bs) && Legal(c, |bs|) && c.CopyFrom?
    modifies bs[c.i], pool, Held(bs[c.i], pool, null)
    ensures bs[c.i].Valid() && pool.Valid() && bs[c.i].Apart(pool) && Conserves(bs[c.i], pool)
    ensures SetOf(bs[c.i].vals) == Result(old(Sets(bs)), c)
  {
    ghost var ms := Sets(bs);
    WorldSeparate(pool, bs, c.i, c.j);
    assert ms[c.j] == SetOf(bs[c.j].vals);
    Copy(pool, bs[c.i], bs[c.j]);
  }

  method DoOperate(pool: FreeList, b: Bitmap, x: Bitmap, y: Bitmap, op: BitOp)
    requires Separate(pool, b, x) && Separate(pool, b, y)
    modifies b, pool, Held(b, pool, null)
    ensures b.Valid() && pool.Valid() && b.Apart(pool) && Conserves(b, pool)
    ensures SetOf(b.vals) == ApplySets(op, old(SetOf(x.vals)), old(SetOf(y.vals)))
  {
    ghost var vs, ws := x.vals, y.vals;
    Operation(pool, b, x, y, op);
    CombinesSets(op, b.vals, vs, ws);
  }

  method DoOrAndCompl(pool: FreeList, b: Bitmap, x: Bitmap, y: Bitmap)
    requires Separate(pool, x, y) && Separate(pool, x, b) && Separate(pool, y, b)
    modifies b, pool, Held(b, pool, null)
    ensures b.Valid() && pool.Valid() && b.Apart(pool) && Conserves(b, pool)
    ensures SetOf(b.vals) == old(SetOf(b.vals)) + (old(SetOf(x.vals)) - old(SetOf(y.vals)))
  {
    IorAndCompl(pool, b, x, y);
  }

  method DoAlone(pool: FreeList, b: Bitmap, c: Command) returns (bit: bool)
    requires pool.Valid() && b.Valid() && b.Apart(pool)
    requires (c.SetBit? && c.bit < UINT_LIMIT) || c.ClearBit? || c.TestBit? || c.ClearAll?
    modifies b, pool, Held(b, pool, null)
    ensures b.Valid() && pool.Valid() && b.Apart(pool) && Conserves(b, pool)
    ensures c.SetBit? ==> SetOf(b.vals) == old(SetOf(b.vals)) + iset{c.bit}
    ensures c.ClearBit? ==> SetOf(b.vals) == old(SetOf(b.vals)) - iset{c.bit}
    ensures c.TestBit? ==> b.vals == old(b.vals) && bit == (c.bit in old(SetOf(b.vals)))
    ensures c.ClearAll? ==> SetOf(b.vals) == iset{}
  {
    bit := false;
    ghost var vs := b.vals;
    if c.SetBit? {
      b.SetBit(pool, c.bit);
      SetsAfter(b.vals, vs, c.bit);
    } else if c.ClearBit? {
      b.ClearBit(pool, c.bit);
      SetsAfter(b.vals, vs, c.bit);
    } else if c.TestBit? {
      bit := b.BitP(c.bit);
    } else {
      b.Clear(pool);
    }
  }

  /** Everything on some list. */
  ghost function Everything(pool: FreeList, bs: seq<Bitmap>): set<Element>
    reads pool, bs
  {
    AllElements(bs) + Members(pool.chain)
  }

  /** All bitmaps but the one that changes. */
  ghost function Rest(bs: seq<Bitmap>, i: nat): set<Bitmap> { set j | 0 <= j < |bs| && j != i :: bs[j] }

  ghost function OthersOf(bs: seq<Bitmap>, i: nat): set<Element>
    requires i < |bs|
    reads Rest(bs, i)
  {
    set j, e | 0 <= j < |bs| && j != i && e in bs[j].elts :: e
  }

  lemma EverythingSplits(pool: FreeList, bs: seq<Bitmap>, i: nat)
    requires i < |bs|
    ensures Everything(pool, bs) == Held(bs[i], pool, null) + OthersOf(bs, i)
  {
    forall e | e in AllElements(bs) ensures e in Held(bs[i], pool, null) + OthersOf(bs, i) {
      var j :| 0 <= j < |bs| && e in bs[j].elts;
    }
  }

  /** The other bitmaps are not the one that changes, and are well formed and apart. */
  ghost predicate OthersAside(bs: seq<Bitmap>, i: nat)
    requires i < |bs|
    reads Rest(bs, i), OthersOf(bs, i)
  {
    && bs[i] !in Rest(bs, i)
    && (forall j :: 0 <= j < |bs| && j != i ==> Members(bs[j].elts) <= OthersOf(bs, i) && bs[j].Valid())
    && (forall j, k :: 0 <= j < |bs| && 0 <= k < |bs| && j != k && j != i && k != i ==>
          bs[j] != bs[k] && Members(bs[j].elts) !! Members(bs[k].elts))
  }

  lemma WorldAside(pool: FreeList, bs: seq<Bitmap>, i: nat)
    requires World(pool, bs) && i < |bs|
    ensures OthersAside(bs, i) && OthersOf(bs, i) !! Held(bs[i], pool, null)
  {
    forall j | 0 <= j < |bs| && j != i ensures Members(bs[j].elts) !! Held(bs[i], pool, null) {
      WorldSeparate(pool, bs, i, j);
    }
    forall e | e in OthersOf(bs, i) ensures e !in Held(bs[i], pool, null) {
      var j :| 0 <= j < |bs| && j != i && e in bs[j].elts;
      assert e in Members(bs[j].elts);
    }
  }

  lemma WorldAgain(pool: FreeList, bs: seq<Bitmap>, i: nat)
    requires i < |bs| && pool.Valid() && bs[i].Valid() && bs[i].Apart(pool)
    requires OthersAside(bs, i) && OthersOf(bs, i) !! Held(bs[i], pool, null)
    ensures World(pool, bs)
  {
    forall j | 0 <= j < |bs| && j != i
      ensures bs[j] != bs[i] && bs[j].Apart(pool) && Members(bs[j].elts) !! Members(bs[i].elts)
    {
      assert bs[j] in Rest(bs, i);
      assert Members(bs[j].elts) !! Held(bs[i], pool, null);
      forall k | 0 <= k < |pool.chain| ensures pool.chain[k] !in bs[j].elts {
        assert pool.chain[k] in Held(bs[i], pool, null);
      }
    }
    forall j | 0 <= j < |bs| ensures Members(bs[j].elts) <= AllElements(bs) {
      assert bs[j] in bs;
    }
  }

  /** One command, with the other bitmaps watched. */
  method ChangeAside(pool: FreeList, bs: seq<Bitmap>, c: Command) returns (bit: bool)
    requires World(pool, bs) && Legal(c, |bs|)
    modifies bs[c.i], pool, Held(bs[c.i], pool, null)
    ensures World(pool, bs) && OthersOf(bs, c.i) == old(OthersOf(bs, c.i)) && Conserves(bs[c.i], pool)
    ensures forall j :: 0 <= j < |bs| && j != c.i ==> bs[j].vals == old(bs[j].vals)
    ensures SetOf(bs[c.i].vals) == Result(old(Sets(bs)), c)
    ensures c.TestBit? ==> bit == (c.bit in old(SetOf(bs[c.i].vals)))
  {
    ghost var i := c.i;
    WorldAside(pool, bs, i);
    bit := Change(pool, bs, c);
    assert OthersAside(bs, i) == old(OthersAside(bs, i)) && OthersOf(bs, i) == old(OthersOf(bs, i));
    forall j | 0 <= j < |bs| && j != i ensures bs[j].vals == old(bs[j].vals) {
      assert bs[j] in Rest(bs, i);
    }
    assert OthersOf(bs, i) !! Held(bs[i], pool, null);
    WorldAgain(pool, bs, i);
  }

  lemma SetsChanged(before: seq<iset<nat>>, after: seq<iset<nat>>, c: Command)
    requires |before| == |after| && Legal(c, |before|) && after[c.i] == Result(before, c)
    requires forall j :: 0 <= j < |before| && j != c.i ==> after[j] == before[j]
    ensures after == Effect(before, c)
  {
  }

  /** One command, in the world of all bitmaps: the sets change as the command
      means, and no element is lost, doubled or shared. */
  method Execute(pool: FreeList, bs: seq<Bitmap>, c: Command) returns (bit: bool)
    requires World(pool, bs) && Legal(c, |bs|)
    modifies pool, bs, Everything(pool, bs)
    ensures World(pool, bs)
    ensures Sets(bs) == Effect(old(Sets(bs)), c)
    ensures c.TestBit? ==> bit == (c.bit in old(Sets(bs))[c.i])
    ensures old(Everything(pool, bs)) <= Everything(pool, bs)
    ensures forall e <- Everything(pool, bs) :: e in old(Everything(pool, bs)) || fresh(e)
  {
    ghost var ms := Sets(bs);
    EverythingSplits(pool, bs, c.i);
    bit := ChangeAside(pool, bs, c);
    SetsChanged(ms, Sets(bs), c);
    EverythingSplits(pool, bs, c.i);
  }

  /** Any run of commands: afterwards every bitmap stands for the set that the
      commands mean, every list is well formed, and each element is on exactly
      one list. */
  method Run(pool: FreeList, bs: seq<Bitmap>, cs: seq<Command>)
    requires World(pool, bs) && forall c <- cs :: Legal(c, |bs|)
    modifies pool, bs, Everything(pool, bs)
    ensures World(pool, bs)
    ensures Sets(bs) == Effects(old(Sets(bs)), cs)
    ensures old(Everything(pool, bs)) <= Everything(pool, bs)
    ensures forall e <- Everything(pool, bs) :: e in old(Everything(pool, bs)) || fresh(e)
  {
    var n := 0;
    while n < |cs|
      invariant 0 <= n <= |cs| && World(pool, bs)
      invariant Sets(bs) == Effects(old(Sets(bs)), cs[..n])
      invariant old(Everything(pool, bs)) <= Everything(pool, bs)
      invariant forall e <- Everything(pool, bs) :: e in old(Everything(pool, bs)) || fresh(e)
    {
      assert cs[..n + 1][..n] == cs[..n] && cs[n] in cs;
      ghost var h := Everything(pool, bs);
      var bit := Execute(pool, bs, cs[n]);
      assert h <= Everything(pool, bs) && forall e <- Everything(pool, bs) :: e in h || fresh(e);
      n := n + 1;
    }
    assert cs[..n] == cs;
  }
}
