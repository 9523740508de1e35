/** Reading integer constants: the multi-precision arithmetic of yylex on
    parts of eight bits, for a host whose wide integers have `bytes` bytes. */
module Literal {

  function Pow256(n: nat): (r: nat)
    ensures r > 0
  {
    if n == 0 then 1 else 256 * Pow256(n - 1)
  }

  /** The number of parts: two wide integers and two more. */
  function TotalParts(bytes: nat): nat { 2 * bytes + 2 }

  /** What a list of parts stands for, lowest first. */
  function Val(s: seq<nat>): nat { if s == [] then 0 else s[0] + 256 * Val(s[1..]) }

  /** The number that digits write in a base. */
  function Numeral(ds: seq<nat>, base: nat): nat {
    if ds == [] then 0 else Numeral(ds[..|ds| - 1], base) * base + ds[|ds| - 1]
  }

  /** One digit's pass over the parts: `x` is the part in hand, still with its carry. */
  function Carry(x: nat, s: seq<nat>, base: nat): (r: seq<nat>)
    ensures |r| == |s| + 1
    decreases |s|
  {
    if s == [] then [x] else [x % 256] + Carry(s[0] * base + x / 256, s[1..], base)
  }

  ghost predicate Reduced(s: seq<nat>) { forall i :: 0 <= i < |s| - 1 ==> s[i] < 256 }

  lemma {:induction false} CarryValue(x: nat, s: seq<nat>, base: nat)
    ensures Reduced(Carry(x, s, base)) && Val(Carry(x, s, base)) == x + 256 * (base * Val(s))
    decreases |s|
  {
    var r := Carry(x, s, base);
    if s != [] {
      var y := s[0] * base + x / 256;
      CarryValue(y, s[1..], base);
      assert r[1..] == Carry(y, s[1..], base);
      forall i | 0 <= i < |r| - 1 ensures r[i] < 256 {
        if i > 0 { assert r[i] == r[1..][i - 1]; }
      }
      var v := Val(s[1..]);
      Distribute(base, s[0], v);
    } else {
      assert r[1..] == [];
    }
  }

  lemma {:induction false} Distribute(base: nat, x: nat, v: nat)
    ensures base * (x + 256 * v) == x * base + 256 * (base * v)
  {
  }

  lemma {:induction false} Commute(x: nat, y: nat)
    ensures x * y == y * x
  {
  }

  lemma {:induction false} Scale(p: nat, v: nat)
    ensures 256 * (p * v) == (256 * p) * v
  {
  }

  lemma {:induction false} AtLeast(p: nat, x: nat)
    ensures x > 0 ==> p * x >= p
  {
  }

  // ----- prefixes -----

  lemma {:induction false} ValJoins(a: seq<nat>, b: seq<nat>)
    ensures Val(a + b) == Val(a) + Pow256(|a|) * Val(b)
  {
    if a == [] {
      assert a + b == b;
    } else {
      assert (a + b)[1..] == a[1..] + b;
      ValJoins(a[1..], b);
      Scale(Pow256(|a| - 1), Val(b));
    }
  }

  lemma {:induction false} ValSnoc(s: seq<nat>, x: nat)
    ensures Val(s + [x]) == Val(s) + Pow256(|s|) * x
  {
    ValJoins(s, [x]);
    assert [x][1..] == [] && Val([x]) == x;
  }

  lemma {:induction false} SmallParts(s: seq<nat>)
    requires forall i :: 0 <= i < |s| ==> s[i] < 256
    ensures Val(s) < Pow256(|s|)
  {
    if s != [] { SmallParts(s[1..]); }
  }

  lemma {:induction false} NumeralGrows(ds: seq<nat>, base: nat, k: nat)
    requires k <= |ds| && base > 0
    ensures Numeral(ds[..k], base) <= Numeral(ds, base)
    decreases |ds| - k
  {
    if k == |ds| {
      assert ds[..k] == ds;
    } else {
      NumeralGrows(ds, base, k + 1);
      assert ds[..k + 1][..k] == ds[..k];
      AtLeast(Numeral(ds[..k], base), base);
    }
  }

  /** The top part is nonzero exactly if the value does not fit in the others. */
  lemma {:induction false} TopPart(s: seq<nat>)
    requires s != [] && Reduced(s)
    ensures s[|s| - 1] != 0 <==> Val(s) >= Pow256(|s| - 1)
  {
    var k := |s| - 1;
    assert s == s[..k] + [s[k]];
    ValSnoc(s[..k], s[k]);
    SmallParts(s[..k]);
    AtLeast(Pow256(k), s[k]);
  }

  lemma {:induction false} Divide(v: nat, p: nat, q: nat, r: nat)
    requires p > 0 && v == r + p * q && r < p
    ensures v % p == r
  {
    assert v == p * (v / p) + v % p;
    var d := q - v / p;
    assert p * d == v % p - r;
    assert d >= 1 ==> p * d >= p;
    assert d <= -1 ==> p * d + p <= 0;
  }

  /** The two halves hold the value modulo the width of both. */
  lemma {:induction false} HalvesHold(s: seq<nat>, b: nat)
    requires |s| == TotalParts(b) && Reduced(s)
    ensures Val(s[..b]) < Pow256(b) && Val(s[b..2 * b]) < Pow256(b)
    ensures Val(s[..b]) + Pow256(b) * Val(s[b..2 * b]) == Val(s) % Pow256(2 * b)
  {
    SmallParts(s[..b]);
    SmallParts(s[b..2 * b]);
    SmallParts(s[..2 * b]);
    assert s[..2 * b] == s[..b] + s[b..2 * b];
    ValJoins(s[..b], s[b..2 * b]);
    assert s == s[..2 * b] + s[2 * b..];
    ValJoins(s[..2 * b], s[2 * b..]);
    Divide(Val(s), Pow256(2 * b), Val(s[2 * b..]), Val(s[..2 * b]));
  }

  /** All parts but the top one hold the value modulo their width. */
  lemma {:induction false} LowerPartsHold(s: seq<nat>)
    requires s != [] && Reduced(s)
    ensures Val(s[..|s| - 1]) == Val(s) % Pow256(|s| - 1)
  {
    var k := |s| - 1;
    assert s == s[..k] + [s[k]];
    ValSnoc(s[..k], s[k]);
    SmallParts(s[..k]);
    Divide(Val(s), Pow256(k), s[k], Val(s[..k]));
  }

  // ----- the lexer's loops -----

  /** Multiply the parts by the base and add a digit, in place. */
  method AddDigit(parts: array<nat>, base: nat, c: nat)
    requires parts.Length > 0 && Reduced(parts[..])
    modifies parts
    ensures Reduced(parts[..]) && Val(parts[..]) == old(Val(parts[..])) * base + c
  {
    DigitValue(parts[..], base, c);
    MultiplyAdd(parts, base, c);
  }

  lemma {:induction false} DigitValue(s: seq<nat>, base: nat, c: nat)
    requires s != []
    ensures var r := Carry(s[0] * base + c, s[1..], base); Reduced(r) && Val(r) == Val(s) * base + c
  {
    CarryValue(s[0] * base + c, s[1..], base);
    Distribute(base, s[0], Val(s[1..]));
    Commute(base, Val(s));
  }

  method MultiplyAdd(parts: array<nat>, base: nat, c: nat)
    requires parts.Length > 0
    modifies parts
    ensures var was := old(parts[..]); parts[..] == Carry(was[0] * base + c, was[1..], base)
  {
    ghost var was := parts[..];
    ghost var all := Carry(was[0] * base + c, was[1..], base);
    assert all[0..] == all;
    var count := 0;
    while count < parts.Length
      invariant count <= parts.Length && Passing(parts[..], was, base, all, count)
    {
      ghost var now := parts[..];
      var x := parts[count] * base;
      if count > 0 {
        x := x + parts[count - 1] / 256;
        parts[count - 1] := parts[count - 1] % 256;
        parts[count] := x;
        PassNext(now, parts[..], was, base, all, count);
      } else {
        parts[0] := x + c;
      }
      count := count + 1;
    }
    PassDone(parts[..], was, base, all);
  }

  /** One pass of carries, done with the parts below `k`. */
  ghost predicate Passing(now: seq<nat>, was: seq<nat>, base: nat, all: seq<nat>, k: nat) {
    && |now| == |was| == |all| && k <= |was|
    && (forall i :: k <= i < |was| ==> now[i] == was[i])
    && (forall i :: 0 <= i < k - 1 ==> now[i] == all[i])
    && (k > 0 ==> Carry(now[k - 1], was[k..], base) == all[k - 1..])
  }

  lemma {:induction false} PassNext(now: seq<nat>, next: seq<nat>, was: seq<nat>, base: nat, all: seq<nat>, k: nat)
    requires Passing(now, was, base, all, k) && 0 < k < |was| == |next|
    requires next[k - 1] == now[k - 1] % 256 && next[k] == now[k] * base + now[k - 1] / 256
    requires forall i :: 0 <= i < |was| && i != k - 1 && i != k ==> next[i] == now[i]
    ensures Passing(next, was, base, all, k + 1)
  {
    CarryStep(now[k - 1], was, base, all, k);
  }

  lemma {:induction false} PassDone(now: seq<nat>, was: seq<nat>, base: nat, all: seq<nat>)
    requires Passing(now, was, base, all, |was|) && was != []
    ensures now == all
  {
    var k := |was|;
    assert was[k..] == [] && all[k - 1..] == [now[k - 1]];
    assert all[k - 1..][0] == all[k - 1];
  }

  lemma {:induction false} CarryStep(x: nat, was: seq<nat>, base: nat, all: seq<nat>, k: nat)
    requires 0 < k < |was| && |all| == |was| && Carry(x, was[k..], base) == all[k - 1..]
    ensures all[k - 1] == x % 256 && Carry(was[k] * base + x / 256, was[k + 1..], base) == all[k..]
  {
    assert was[k..][0] == was[k] && was[k..][1..] == was[k + 1..];
    var r := all[k - 1..];
    assert r[0] == all[k - 1] && r[1..] == all[k..];
    assert r == [x % 256] + Carry(was[k] * base + x / 256, was[k + 1..], base);
  }

  /** The remainder differs from a number below the top part exactly if the
      number needs one part more than the two wide integers have. */
  lemma {:induction false} LosesDigits(v: nat, bytes: nat)
    ensures v % Pow256(2 * bytes) != v && v < Pow256(TotalParts(bytes) - 1)
            <==> Pow256(2 * bytes) <= v < 256 * Pow256(2 * bytes)
  {
    var p := Pow256(2 * bytes);
    assert Pow256(2 * bytes + 1) == 256 * p;
    if v < p { Divide(v, p, 0, v); }
  }

  /** All digits: `overflow` is set exactly when the number does not fit below
      the top part, and the two wide integers hold it modulo their width.  From
      that width on up to 256 times as much, digits are lost and `overflow` is not set. */
  method ReadDigits(ds: seq<nat>, base: nat, bytes: nat) returns (overflow: bool, high: nat, low: nat)
    requires base > 0
    ensures overflow <==> Numeral(ds, base) >= Pow256(TotalParts(bytes) - 1)
    ensures low < Pow256(bytes) && high < Pow256(bytes)
    ensures low + Pow256(bytes) * high == Numeral(ds, base) % Pow256(2 * bytes)
    ensures !overflow && low + Pow256(bytes) * high != Numeral(ds, base)
            <==> Pow256(2 * bytes) <= Numeral(ds, base) < 256 * Pow256(2 * bytes)
  {
    var parts := new nat[TotalParts(bytes)](_ => 0);
    overflow := false;
    ZeroValue(parts[..]);
    var k := 0;
    while k < |ds|
      invariant 0 <= k <= |ds| && Reduced(parts[..]) && Val(parts[..]) == Numeral(ds[..k], base)
      invariant overflow <==> Numeral(ds[..k], base) >= Pow256(TotalParts(bytes) - 1)
    {
      assert ds[..k + 1][..k] == ds[..k];
      NumeralGrows(ds[..k + 1], base, k);
      AddDigit(parts, base, ds[k]);
      TopPart(parts[..]);
      if parts[parts.Length - 1] != 0 { overflow := true; }
      k := k + 1;
    }
    assert ds[..k] == ds;
    high, low := CollectHalves(parts, bytes);
    HalvesHold(parts[..], bytes);
    LosesDigits(Numeral(ds, base), bytes);
  }

  lemma {:induction false} ZeroValue(s: seq<nat>)
    requires forall i :: 0 <= i < |s| ==> s[i] == 0
    ensures Val(s) == 0
  {
    if s != [] { ZeroValue(s[1..]); }
  }

  /** Shift the parts into two wide integers; the shifted parts share no bits. */
  method CollectHalves(parts: array<nat>, bytes: nat) returns (high: nat, low: nat)
    requires parts.Length == TotalParts(bytes)
    ensures low == Val(parts[..bytes]) && high == Val(parts[bytes..2 * bytes])
  {
    high, low := 0, 0;
    var i, shift := 0, 1;
    ghost var s := parts[..];
    while i < bytes
      invariant 0 <= i <= bytes && shift == Pow256(i)
      invariant low == Val(s[..i]) && high == Val(s[bytes..bytes + i])
    {
      OneMore(s, 0, i);
      OneMore(s, bytes, i);
      high := high + shift * parts[i + bytes];
      low := low + shift * parts[i];
      shift := shift * 256;
      i := i + 1;
    }
    assert s[..bytes] == parts[..bytes] && s[bytes..2 * bytes] == parts[bytes..2 * bytes];
  }

  lemma {:induction false} OneMore(s: seq<nat>, from: nat, i: nat)
    requires from + i < |s|
    ensures s[0..] == s && Val(s[from..from + i + 1]) == Val(s[from..from + i]) + Pow256(i) * s[from + i]
    ensures Pow256(i) * s[from + i] >= 0
  {
    assert s[from..from + i + 1] == s[from..from + i] + [s[from + i]];
    ValSnoc(s[from..from + i], s[from + i]);
  }
}
