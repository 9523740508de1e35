/** The loop at the end of init_alias_analysis that replaces each register in
    reg_base_value by what that register is based on. */
module BaseValues {

  /** An entry of reg_base_value: nothing, another register, or a base address. */
  datatype Base = Nothing | RegBase(regno: nat) | Address(id: int)

  const MAX_ALIAS_LOOP_PASSES: nat := 10

  predicate InBounds(s: seq<Base>) {
    forall i :: 0 <= i < |s| && s[i].RegBase? ==> s[i].regno < |s|
  }

  /** Register `r` leads to `e`, which is not a register, after exactly `n`
      register entries.  A register based on itself leads to nothing. */
  ghost predicate Leads(s: seq<Base>, r: nat, n: nat, e: Base)
    requires InBounds(s) && r < |s|
    decreases n
  {
    if !s[r].RegBase? then n == 0 && e == s[r]
    else if s[r].regno == r then n == 1 && e == Nothing
    else n > 0 && Leads(s, s[r].regno, n - 1, e)
  }

  ghost predicate LeadsWithin(s: seq<Base>, r: nat, n: nat, e: Base)
    requires InBounds(s) && r < |s|
  {
    exists m: nat :: m <= n && Leads(s, r, m, e)
  }

  lemma {:induction false} LeadsUnique(s: seq<Base>, r: nat, n: nat, e: Base, n': nat, e': Base)
    requires InBounds(s) && r < |s| && Leads(s, r, n, e) && Leads(s, r, n', e')
    ensures n == n' && e == e' && !e.RegBase?
    decreases n
  {
    if s[r].RegBase? && s[r].regno != r {
      LeadsUnique(s, s[r].regno, n - 1, e, n' - 1, e');
    }
  }

  /** What one visit of entry `i` does. */
  function Jump(s: seq<Base>, i: nat): seq<Base>
    requires InBounds(s) && i < |s|
  {
    if !s[i].RegBase? then s
    else if s[i].regno == i then s[i := Nothing]
    else s[i := s[s[i].regno]]
  }

  /** The visits of entries `i` and up, in order. */
  function PassFrom(s: seq<Base>, i: nat): (f: seq<Base>)
    requires InBounds(s) && i <= |s|
    ensures |f| == |s| && InBounds(f)
    decreases |s| - i
  {
    if i == |s| then s else PassFrom(Jump(s, i), i + 1)
  }

  function Passes(s: seq<Base>, k: nat): (f: seq<Base>)
    requires InBounds(s)
    ensures |f| == |s| && InBounds(f)
  {
    if k == 0 then s else PassFrom(Passes(s, k - 1), 0)
  }

  // ----- one pass halves every chain -----

  /** `b` is at least two hops of `s` further than a register that leads to `e`
      in `n` hops, or is about to be. */
  ghost predicate Advanced(s: seq<Base>, b: Base, n: nat, e: Base)
    requires InBounds(s)
  {
    if !b.RegBase? then b == e
    else b.regno < |s| && n >= 2 &&
         ((exists m: nat :: m <= n - 2 && Leads(s, b.regno, m, e))
          || (n == 2 && s[b.regno] == b && e == Nothing))
  }

  /** Entries before `i` have advanced, the others are untouched. */
  ghost predicate MidPass(s: seq<Base>, c: seq<Base>, i: nat)
    requires InBounds(s)
  {
    && |c| == |s| && InBounds(c) && i <= |s|
    && (forall r :: i <= r < |s| ==> c[r] == s[r])
    && (forall r: nat, n: nat, e :: r < i && Leads(s, r, n, e) ==> Advanced(s, c[r], n, e))
  }

  lemma AdvanceOne(s: seq<Base>, c: seq<Base>, i: nat, n: nat, e: Base)
    requires InBounds(s) && MidPass(s, c, i) && i < |s| && Leads(s, i, n, e)
    ensures Advanced(s, Jump(c, i)[i], n, e)
  {
    if s[i].RegBase? && s[i].regno != i {
      var b := s[i].regno;
      assert Leads(s, b, n - 1, e);
      if b < i {
        assert Advanced(s, c[b], n - 1, e);
        if c[b].RegBase? && s[c[b].regno] == c[b] { assert Leads(s, c[b].regno, 1, Nothing); }
      } else if s[b].RegBase? && s[b].regno != b {
        assert Leads(s, s[b].regno, n - 2, e);
      }
    }
  }

  lemma MidPassStep(s: seq<Base>, c: seq<Base>, i: nat)
    requires InBounds(s) && MidPass(s, c, i) && i < |s|
    ensures MidPass(s, Jump(c, i), i + 1)
  {
    forall r: nat, n: nat, e | r < i + 1 && Leads(s, r, n, e)
      ensures Advanced(s, Jump(c, i)[r], n, e)
    {
      if r == i { AdvanceOne(s, c, i, n, e); }
    }
  }

  lemma {:induction false} PassAdvances(s: seq<Base>, c: seq<Base>, i: nat)
    requires InBounds(s) && MidPass(s, c, i)
    ensures MidPass(s, PassFrom(c, i), |s|)
    decreases |s| - i
  {
    if i < |s| {
      MidPassStep(s, c, i);
      PassAdvances(s, Jump(c, i), i + 1);
    }
  }

  lemma {:induction false} AdvancedHalves(s: seq<Base>, f: seq<Base>, r: nat, n: nat, e: Base) returns (m: nat)
    requires InBounds(s) && MidPass(s, f, |s|) && r < |s| && Leads(s, r, n, e)
    ensures m <= n / 2 && Leads(f, r, m, e)
    decreases n
  {
    assert Advanced(s, f[r], n, e);
    LeadsUnique(s, r, n, e, n, e);
    if f[r].RegBase? {
      var t := f[r].regno;
      var k: nat;
      if n == 2 && s[t] == f[r] && e == Nothing {
        k := 1;
      } else {
        k :| k <= n - 2 && Leads(s, t, k, e);
      }
      assert Leads(s, t, k, e);
      if t == r { LeadsUnique(s, r, n, e, k, e); }
      m := AdvancedHalves(s, f, t, k, e);
      if k == n - 1 { assert f[t] == Nothing by { assert Advanced(s, f[t], 1, e); } }
      m := m + 1;
    } else {
      m := 0;
    }
  }

  /** One pass keeps the end of every chain and at least halves its length. */
  lemma PassHalves(s: seq<Base>, r: nat, n: nat, e: Base)
    requires InBounds(s) && r < |s| && LeadsWithin(s, r, n, e)
    ensures LeadsWithin(PassFrom(s, 0), r, n / 2, e)
  {
    PassAdvances(s, s, 0);
    var k: nat :| k <= n && Leads(s, r, k, e);
    var m := AdvancedHalves(s, PassFrom(s, 0), r, k, e);
  }

  function Halved(n: nat, k: nat): nat {
    if k == 0 then n else Halved(n, k - 1) / 2
  }

  lemma {:induction false} PassesHalve(s: seq<Base>, k: nat, r: nat, n: nat, e: Base)
    requires InBounds(s) && r < |s| && Leads(s, r, n, e)
    ensures LeadsWithin(Passes(s, k), r, Halved(n, k), e)
  {
    if k > 0 {
      PassesHalve(s, k - 1, r, n, e);
      PassHalves(Passes(s, k - 1), r, Halved(n, k - 1), e);
    }
  }

  /** Every chain of fewer than 2^10 registers is resolved within the cap. */
  lemma ShortChainsResolve(s: seq<Base>, r: nat, n: nat, e: Base)
    requires InBounds(s) && r < |s| && Leads(s, r, n, e) && n < 1024
    ensures Passes(s, MAX_ALIAS_LOOP_PASSES)[r] == e
  {
    PassesHalve(s, 10, r, n, e);
    TenHalves(n);
  }

  lemma TenHalves(n: nat)
    ensures Halved(n, 10) == n / 2 / 2 / 2 / 2 / 2 / 2 / 2 / 2 / 2 / 2
  {
    assert Halved(n, 0) == n && Halved(n, 1) == n / 2;
    assert Halved(n, 2) == n / 2 / 2;
    assert Halved(n, 4) == n / 2 / 2 / 2 / 2;
    assert Halved(n, 6) == n / 2 / 2 / 2 / 2 / 2 / 2;
    assert Halved(n, 8) == n / 2 / 2 / 2 / 2 / 2 / 2 / 2 / 2;
  }

  // ----- the bound is tight -----

  /** Each register is based on the one `d` further up, until the line ends. */
  function Line(len: nat, d: nat): seq<Base> {
    seq(len, i requires 0 <= i < len => if i + d < len then RegBase(i + d) else Address(0))
  }

  lemma {:induction false} LinePass(len: nat, d: nat, c: seq<Base>, i: nat)
    requires d > 0 && i <= len && |c| == len && InBounds(c)
    requires forall r :: 0 <= r < i ==> c[r] == Line(len, 2 * d)[r]
    requires forall r :: i <= r < len ==> c[r] == Line(len, d)[r]
    ensures PassFrom(c, i) == Line(len, 2 * d)
    decreases len - i
  {
    if i < len {
      LinePass(len, d, Jump(c, i), i + 1);
    } else {
      assert c == Line(len, 2 * d);
    }
  }

  lemma {:induction false} LineLeads(len: nat, r: nat)
    requires r < len
    ensures Leads(Line(len, 1), r, len - 1 - r, Address(0))
    decreases len - r
  {
    if r + 1 < len { LineLeads(len, r + 1); }
  }

  /** For every length from 2^10 on there is a chain the cap leaves unresolved. */
  lemma LongChainUnresolved(n: nat)
    requires n >= 1024
    ensures var s := Line(n + 1, 1);
            Leads(s, 0, n, Address(0)) && Passes(s, MAX_ALIAS_LOOP_PASSES)[0].RegBase?
  {
    LineLeads(n + 1, 0);
    LinePasses(n + 1, 10);
    assert Stride(10) == 1024 by {
      assert Stride(3) == 8 && Stride(6) == 64 && Stride(9) == 512;
    }
  }

  function Stride(k: nat): nat { if k == 0 then 1 else 2 * Stride(k - 1) }

  lemma {:induction false} LinePasses(len: nat, k: nat)
    ensures Passes(Line(len, 1), k) == Line(len, Stride(k)) && Stride(k) > 0
  {
    if k > 0 {
      LinePasses(len, k - 1);
      LinePass(len, Stride(k - 1), Line(len, Stride(k - 1)), 0);
    }
  }

  // ----- the loop -----

  method SimplifyPass(a: array<Base>) returns (changed: bool)
    requires InBounds(a[..])
    modifies a
    ensures a[..] == PassFrom(old(a[..]), 0)
    ensures changed <==> exists i :: 0 <= i < a.Length && old(a[i]).RegBase?
    ensures InBounds(a[..])
  {
    changed := false;
    var ui := 0;
    while ui < a.Length
      invariant 0 <= ui <= a.Length
      invariant InBounds(a[..])
      invariant PassFrom(a[..], ui) == PassFrom(old(a[..]), 0)
      invariant forall i :: ui <= i < a.Length ==> a[i] == old(a[i])
      invariant changed <==> exists i :: 0 <= i < ui && old(a[i]).RegBase?
    {
      ghost var s := a[..];
      if a[ui].RegBase? {
        var b := a[ui].regno;
        if b == ui {
          a[ui] := Nothing;
        } else {
          assert s[ui].regno < |s|;
          a[ui] := a[b];
        }
        changed := true;
      }
      assert a[..] == Jump(s, ui);
      ui := ui + 1;
    }
  }

  lemma SettledPass(s: seq<Base>, i: nat)
    requires i <= |s| && forall j :: 0 <= j < |s| ==> !s[j].RegBase?
    ensures PassFrom(s, i) == s
    decreases |s| - i
  {
  }

  lemma {:induction false} SettledPasses(s: seq<Base>, k: nat, j: nat)
    requires InBounds(s) && k <= j
    requires forall i :: 0 <= i < |s| ==> !Passes(s, k)[i].RegBase?
    ensures Passes(s, j) == Passes(s, k)
    decreases j
  {
    if k < j {
      SettledPasses(s, k, j - 1);
      SettledPass(Passes(s, k), 0);
    }
  }

  /** The simplification: every register whose chain is shorter than 2^10 ends
      up with the base at the end of its chain. */
  method Simplify(a: array<Base>)
    requires InBounds(a[..])
    modifies a
    ensures a[..] == Passes(old(a[..]), MAX_ALIAS_LOOP_PASSES)
    ensures forall r: nat, n: nat, e :: r < a.Length && n < 1024 && Leads(old(a[..]), r, n, e) ==> a[r] == e
  {
    var pass := 0;
    var changed := true;
    while changed && pass < MAX_ALIAS_LOOP_PASSES
      invariant 0 <= pass <= MAX_ALIAS_LOOP_PASSES
      invariant InBounds(a[..])
      invariant a[..] == Passes(old(a[..]), pass)
      invariant !changed ==> forall i :: 0 <= i < a.Length ==> !a[i].RegBase?
      decreases MAX_ALIAS_LOOP_PASSES - pass
    {
      ghost var before := a[..];
      changed := SimplifyPass(a);
      pass := pass + 1;
      if !changed {
        assert forall j :: 0 <= j < |before| ==> !before[j].RegBase?;
        SettledPass(before, 0);
        assert a[..] == before;
      }
    }
    if !changed {
      SettledPasses(old(a[..]), pass, MAX_ALIAS_LOOP_PASSES);
    }
    forall r: nat, n: nat, e | r < a.Length && n < 1024 && Leads(old(a[..]), r, n, e)
      ensures a[r] == e
    {
      ShortChainsResolve(old(a[..]), r, n, e);
    }
  }
}
