/** The routines that write and read declarators, as they run: gen_type with
    the global data_type, and the loop of grokdeclarator. */
module AuxInfo {
  import opened Options
  import opened Declarator
  import opened DeclaratorRoundTrip

  class Writer {
    var dataType: string

    /** Skip leading const and volatile, and put the type in there. */
    method AffixDataType(param: seq<Tok>) returns (r: seq<Tok>)
      ensures r == Affix(param, dataType)
    {
      var p := 0;
      assert param[..0] == [] && param[0..] == param;
      while p < |param| && (param[p] == Q(Volatile) || param[p] == Q(Const))
        invariant 0 <= p <= |param|
        invariant Affix(param, dataType) == param[..p] + Affix(param[p..], dataType)
      {
        AffixMore(param, p, dataType);
        p := p + 1;
      }
      r := param[..p] + ([TypeName(dataType)] + param[p..]);
    }

    /** The declarator, and whether every number fitted into its buffer. */
    method GenType(e: Names, seed: seq<Tok>, t: Ty) returns (r: seq<Tok>, fits: bool)
      modifies this
      ensures r == Gen(e, seed, t, old(dataType)).0 && dataType == Gen(e, seed, t, old(dataType)).1
      ensures fits == EachSize(e, t, FitsBuffer)
      decreases t, 0
    {
      match t
      case Base(n, q) =>
        dataType := n;
        r, fits := QualToks(q) + seed, true;
      case Ptr(to, q) =>
        var star := [Star] + PointerQuals(q) + seed;
        if Derived(to) { star := [LPar] + star + [RPar]; }
        r, fits := GenType(e, star, to);
      case Arr(el, n) =>
        var size := ShownSize(e, el, n);
        r, fits := GenType(e, seed + SizeToks(size), el);
        if size.Some? && !FitsBuffer(size.value) { fits := false; }
      case Fun(ret, ps) =>
        var fs, listFits := FormalList(e, ps);
        r, fits := GenType(e, seed + fs, ret);
        fits := fits && listFits;
    }

    method FormalList(e: Names, ps: Params) returns (r: seq<Tok>, fits: bool)
      modifies this
      ensures r == Formals(e, ps, old(dataType)).0 && dataType == Formals(e, ps, old(dataType)).1
      ensures fits == (ps.Listed? ==> EachSizeOf(e, ps.types, FitsBuffer))
      decreases ps, 1
    {
      match ps
      case Open => r, fits := [LPar, RPar], true;
      case Listed(ts, more) =>
        if ts == [] {
          r, fits := [LPar, TypeName("void"), RPar], true;
        } else {
          r, fits := EachFormal(e, ts);
          r := [LPar] + r;
          if more { r := r + [Comma, Ellipsis]; }
          r := r + [RPar];
        }
    }

    method EachFormal(e: Names, ts: seq<Ty>) returns (list: seq<Tok>, fits: bool)
      requires ts != []
      modifies this
      ensures list == FormalsFrom(e, ts, old(dataType)).0 && dataType == FormalsFrom(e, ts, old(dataType)).1
      ensures fits == EachSizeOf(e, ts, FitsBuffer)
      decreases ts, 1
    {
      var i := 0;
      list, fits := [], true;
      ghost var all := FormalsFrom(e, ts, dataType);
      assert ts[0..] == ts;
      while i < |ts|
        invariant 0 <= i <= |ts| && (list == [] <==> i == 0)
        invariant i == |ts| ==> list == all.0 && dataType == all.1
        invariant i < |ts| ==>
                    var (rest, d) := FormalsFrom(e, ts[i..], dataType);
                    list + (if i > 0 then [Comma] else []) + rest == all.0 && d == all.1
        invariant EachSizeOf(e, ts, FitsBuffer) == (fits && EachSizeOf(e, ts[i..], FitsBuffer))
      {
        if list != [] { list := list + [Comma]; }
        ghost var before := list;
        var formal, one := GenType(e, [], ts[i]);
        fits := fits && one;
        var affixed := AffixDataType(formal);
        AffixNonempty(formal, dataType);
        assert ts[i..][0] == ts[i] && ts[i..][1..] == ts[i + 1..];
        list := list + affixed;
        i := i + 1;
        if i < |ts| {
          Regroup(before, affixed, FormalsFrom(e, ts[i..], dataType).0);
        }
      }
    }
  }

  lemma {:induction false} AffixMore(s: seq<Tok>, p: nat, n: string)
    requires p < |s| && (s[p] == Q(Volatile) || s[p] == Q(Const))
    ensures s[..p] + Affix(s[p..], n) == s[..p + 1] + Affix(s[p + 1..], n)
  {
    assert s[p..][0] == s[p] && s[p..][1..] == s[p + 1..] && s[..p + 1] == s[..p] + [s[p]];
  }

  lemma {:induction false} AffixNonempty(s: seq<Tok>, n: string)
    ensures Affix(s, n) != []
  {
  }

  lemma {:induction false} Regroup(a: seq<Tok>, b: seq<Tok>, c: seq<Tok>)
    ensures a + (b + [Comma] + c) == a + b + [Comma] + c
  {
  }

  /** The loop of grokdeclarator over the layers of a declarator.  From a named
      type it only arrives at types it can make, with all parameters adjusted. */
  method GrokLoop(e: Names, base: Ty, baseQuals: Quals, decl: Decl) returns (r: Option<(Ty, Quals)>)
    ensures r == Grok(e, base, baseQuals, decl)
    ensures InLoop(e, base) && r.Some? ==> InLoop(e, r.value.0)
  {
    if InLoop(e, base) { GrokIsProper(e, base, baseQuals, decl); }
    var t, q, d := base, baseQuals, decl;
    while !d.NameD?
      invariant Grok(e, t, q, d) == Grok(e, base, baseQuals, decl)
      decreases d
    {
      if d.ArrD? {
        if IsVoid(t) || t.Fun? || Negative(d.size) { return None; }
        t := Arr(t, AsSize(d.size));
        if q != {} { t := Qualified(e, t, q); }
      } else if d.FunD? {
        if Derived(t) { return None; }
        var args := GrokParms(e, d.parms, d.more);
        if args.None? { return None; }
        if q != {} { t := Qualified(e, t, q); }
        t, q := Fun(t, args.value), {};
      } else {
        if q != {} { t := Qualified(e, t, q); }
        t, q := Ptr(t, {}), d.quals;
      }
      d := d.inner;
    }
    return Some((t, q));
  }
}
