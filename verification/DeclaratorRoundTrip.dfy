/** Reading back what gen_type and affix_data_type write. */
module DeclaratorRoundTrip {
  import opened Arithmetic
  import opened Options
  import opened Declarator

  // ----- the declarator of a type -----

  function BaseName(t: Ty): string {
    match t
    case Base(n, _) => n
    case Ptr(to, _) => BaseName(to)
    case Arr(el, _) => BaseName(el)
    case Fun(r, _) => BaseName(r)
  }

  function BaseQuals(t: Ty): Quals {
    match t
    case Base(_, q) => q
    case Ptr(to, _) => BaseQuals(to)
    case Arr(el, _) => BaseQuals(el)
    case Fun(r, _) => BaseQuals(r)
  }

  /** The declarator that turns the base of `t` into `t`, around `d`. */
  function Around(e: Names, d: Decl, t: Ty): Decl
    decreases t, 0
  {
    match t
    case Base(_, _) => d
    case Ptr(to, q) => Around(e, PtrD(q - {Restrict}, d), to)
    case Arr(el, n) => Around(e, ArrD(d, ShownSize(e, el, n)), el)
    case Fun(r, Open) => Around(e, FunD(d, [], false), r)
    case Fun(r, Listed(ts, more)) =>
      Around(e, if ts == [] then FunD(d, [Parm("void", {}, NameD(None))], false) else FunD(d, AsParms(e, ts), more), r)
  }

  function AsParms(e: Names, ts: seq<Ty>): (ps: seq<Parm>)
    ensures |ps| == |ts|
    decreases ts, 0
  {
    if ts == [] then [] else [AsParm(e, ts[0])] + AsParms(e, ts[1..])
  }

  function AsParm(e: Names, t: Ty): Parm
    decreases t, 1
  {
    Parm(BaseName(t), BaseQuals(t), Around(e, NameD(None), t))
  }

  // ----- writing declarators -----

  function Show(d: Decl): seq<Tok>
    decreases d, 1
  {
    if d.PtrD? then [Star] + QualToks(d.quals) + Show(d.inner) else ShowDirect(d)
  }

  /** A declarator as it stands in front of brackets. */
  function ShowDirect(d: Decl): seq<Tok>
    decreases d, if d.PtrD? then 2 else 0
  {
    match d
    case NameD(None) => []
    case NameD(Some(x)) => [Ident(x)]
    case ArrD(i, n) => ShowDirect(i) + SizeToks(n)
    case FunD(i, ps, more) => ShowDirect(i) + ([LPar] + ShowParms(ps, more) + [RPar])
    case PtrD(_, _) => [LPar] + Show(d) + [RPar]
  }

  function ShowParms(ps: seq<Parm>, more: bool): seq<Tok>
    decreases ps, 0
  {
    if ps == [] then []
    else if |ps| == 1 then ShowParm(ps[0]) + (if more then [Comma, Ellipsis] else [])
    else ShowParm(ps[0]) + [Comma] + ShowParms(ps[1..], more)
  }

  function ShowParm(p: Parm): seq<Tok>
    decreases p, 0
  {
    ShowSpecs(p.name, p.quals) + Show(p.d)
  }

  /** Type and qualifiers: the type goes behind const and volatile, in front of restrict. */
  function ShowSpecs(n: string, q: Quals): seq<Tok> {
    if Restrict in q then [TypeName(n)] + QualToks(q) else QualToks(q) + [TypeName(n)]
  }

  // ----- gen_type writes the declarator -----

  predicate StartsWithQual(s: seq<Tok>) { s != [] && s[0].Q? }

  lemma {:induction false} ShowStarts(d: Decl)
    ensures !StartsWithQual(Show(d)) && !StartsWithQual(ShowDirect(d))
    ensures !d.PtrD? ==> Show(d) == ShowDirect(d) && (Show(d) != [] ==> Show(d)[0] != Star)
    decreases d
  {
    match d
    case NameD(_) =>
    case PtrD(_, _) =>
    case ArrD(i, _) => ShowStarts(i);
    case FunD(i, _, _) => ShowStarts(i);
  }

  lemma {:induction false} AffixShows(q: Quals, s: seq<Tok>, n: string)
    requires !StartsWithQual(s)
    ensures Affix(QualToks(q) + s, n) == ShowSpecs(n, q) + s
  {
    AffixPlain(s, n);
    var v, c := QualTok(q, Volatile), QualTok(q, Const);
    if Restrict in q {
      assert (QualToks(q) + s)[0] == Q(Restrict);
    } else {
      assert QualToks(q) == v + c;
      Associate(v, c, s);
      AffixOne(Const, q, s, n);
      AffixOne(Volatile, q, c + s, n);
      Associate(c, [TypeName(n)], s);
      Associate(v, c + [TypeName(n)], s);
      Associate(v, c, [TypeName(n)]);
    }
  }

  lemma {:induction false} AffixPlain(s: seq<Tok>, n: string)
    requires !StartsWithQual(s)
    ensures Affix(s, n) == [TypeName(n)] + s
  {
  }

  lemma {:induction false} AffixOne(x: Qual, q: Quals, s: seq<Tok>, n: string)
    requires x != Restrict
    ensures Affix(QualTok(q, x) + s, n) == QualTok(q, x) + Affix(s, n)
  {
    assert if x in q then ([Q(x)] + s)[1..] == s else QualTok(q, x) + s == s;
  }

  /** The seed gen_type has in hand when it comes to `t`: parenthesised if
      brackets are to follow a star. */
  function Seed(d: Decl, t: Ty): seq<Tok> { if Derived(t) then ShowDirect(d) else Show(d) }

  lemma {:induction false} StarSeed(q: Quals, d: Decl, to: Ty)
    ensures var star := [Star] + PointerQuals(q) + Show(d);
            Seed(PtrD(q - {Restrict}, d), to) == if Derived(to) then [LPar] + star + [RPar] else star
  {
    var d' := PtrD(q - {Restrict}, d);
    assert PointerQuals(q) == QualToks(q - {Restrict});
    assert ShowDirect(d') == [LPar] + Show(d') + [RPar];
  }

  lemma {:induction false} BracketSeed(d: Decl, t: Ty)
    requires !d.PtrD?
    ensures Seed(d, t) == ShowDirect(d)
  {
    ShowStarts(d);
  }

  /** gen_type puts out the qualifiers of the base and the declarator, and
      leaves the name of the base in data_type whatever it wrote in between. */
  lemma {:induction false} GenShows(e: Names, d: Decl, t: Ty, dataType: string)
    ensures Gen(e, Seed(d, t), t, dataType) == (QualToks(BaseQuals(t)) + Show(Around(e, d, t)), BaseName(t))
    decreases t, 1
  {
    match t
    case Base(_, _) =>
    case Ptr(to, q) =>
      var d' := PtrD(q - {Restrict}, d);
      StarSeed(q, d, to);
      GenShows(e, d', to, dataType);
    case Arr(el, n) =>
      var d' := ArrD(d, ShownSize(e, el, n));
      BracketSeed(d', el);
      GenShows(e, d', el, dataType);
    case Fun(r, ps) =>
      FormalsShow(e, ps, dataType);
      var (fs, dt) := Formals(e, ps, dataType);
      var d' := match ps
                case Open => FunD(d, [], false)
                case Listed(ts, more) =>
                  if ts == [] then FunD(d, [Parm("void", {}, NameD(None))], false) else FunD(d, AsParms(e, ts), more);
      BracketSeed(d', r);
      assert ShowDirect(d') == ShowDirect(d) + fs;
      GenShows(e, d', r, dt);
  }

  lemma {:induction false} FormalsShow(e: Names, ps: Params, dataType: string)
    ensures Formals(e, ps, dataType).0 ==
            match ps
            case Open => [LPar] + ShowParms([], false) + [RPar]
            case Listed(ts, more) =>
              if ts == [] then [LPar] + ShowParms([Parm("void", {}, NameD(None))], false) + [RPar]
              else [LPar] + ShowParms(AsParms(e, ts), more) + [RPar]
    decreases ps, 1
  {
    match ps
    case Open =>
    case Listed(ts, more) =>
      if ts == [] {
        assert ShowParm(Parm("void", {}, NameD(None))) == [TypeName("void")];
      } else {
        FormalsFromShow(e, ts, more, dataType);
      }
  }

  lemma {:induction false} FormalsFromShow(e: Names, ts: seq<Ty>, more: bool, dataType: string)
    requires ts != []
    ensures FormalsFrom(e, ts, dataType).0 + (if more then [Comma, Ellipsis] else []) == ShowParms(AsParms(e, ts), more)
    decreases ts, 1
  {
    GenShows(e, NameD(None), ts[0], dataType);
    assert Seed(NameD(None), ts[0]) == [];
    var p := AsParm(e, ts[0]);
    ShowStarts(p.d);
    AffixShows(p.quals, Show(p.d), p.name);
    var (s, dt) := Gen(e, [], ts[0], dataType);
    assert Affix(s, dt) == ShowParm(p);
    var ps := AsParms(e, ts);
    assert ps[0] == p && ps[1..] == AsParms(e, ts[1..]);
    if |ts| > 1 {
      FormalsFromShow(e, ts[1..], more, dt);
    }
  }

  // ----- the grammar reads it back -----

  /** A declarator that can be written: only a list that has parameters can end in an ellipsis. */
  predicate Writable(d: Decl)
    decreases d, 0
  {
    match d
    case NameD(_) => true
    case PtrD(_, i) => Writable(i)
    case ArrD(i, _) => Writable(i)
    case FunD(i, ps, more) => Writable(i) && (more ==> ps != []) && WritableParms(ps)
  }

  predicate WritableParms(ps: seq<Parm>)
    decreases ps, 1
  {
    ps != [] ==> Writable(ps[0].d) && WritableParms(ps[1..])
  }

  /** What may follow a whole declarator. */
  predicate Follow(s: seq<Tok>) { s == [] || s[0] == RPar || s[0] == Comma }

  /** What may follow a declarator that brackets can still follow. */
  predicate After(s: seq<Tok>) { (s == [] || !s[0].Ident?) && !Grouping(s) }

  lemma {:induction false} TakeOne(x: Qual, q: Quals, s: seq<Tok>)
    ensures TakeQuals(QualTok(q, x) + s) == (q * {x} + TakeQuals(s).0, TakeQuals(s).1)
  {
    if x in q {
      assert ([Q(x)] + s)[1..] == s && q * {x} == {x};
    } else {
      assert QualTok(q, x) + s == s && q * {x} + TakeQuals(s).0 == TakeQuals(s).0;
    }
  }

  lemma {:induction false} TakeShown(q: Quals, s: seq<Tok>)
    requires !StartsWithQual(s)
    ensures TakeQuals(QualToks(q) + s) == (q, s)
  {
    var v, c := QualTok(q, Volatile), QualTok(q, Const);
    Associate(QualTok(q, Restrict), v + c, s);
    Associate(v, c, s);
    TakeOne(Const, q, s);
    TakeOne(Volatile, q, c + s);
    TakeOne(Restrict, q, v + (c + s));
    var all := q * {Restrict} + (q * {Volatile} + (q * {Const} + {}));
    forall x: Qual ensures x in all <==> x in q {
      match x case Const => case Volatile => case Restrict =>
    }
    assert all == q;
  }

  lemma {:induction false} SpecsRead(n: string, q: Quals, s: seq<Tok>)
    requires !StartsWithQual(s)
    ensures ParseSpecs(ShowSpecs(n, q) + s) == Ok((n, q), s)
  {
    if Restrict in q {
      var r := QualToks(q) + s;
      Associate([TypeName(n)], QualToks(q), s);
      assert ([TypeName(n)] + r)[1..] == r;
      TakeShown(q, s);
      assert {} + q == q;
    } else {
      Associate(QualToks(q), [TypeName(n)], s);
      TakeShown(q, [TypeName(n)] + s);
      assert ([TypeName(n)] + s)[1..] == s && q + {} == q;
    }
  }

  lemma {:induction false} StarFirst(q: seq<Tok>, i: seq<Tok>, rest: seq<Tok>)
    ensures var s := [Star] + q + i + rest; s[0] == Star && s[1..] == q + (i + rest)
  {
  }

  lemma {:induction false} Associate(a: seq<Tok>, b: seq<Tok>, c: seq<Tok>)
    ensures a + b + c == a + (b + c)
  {
  }

  lemma {:induction false} ReadDecl(d: Decl, rest: seq<Tok>)
    requires Writable(d) && Follow(rest)
    ensures ParseDecl(Show(d) + rest) == Ok(d, rest)
    decreases d, 1
  {
    ShowStarts(d);
    if d.PtrD? {
      ShowStarts(d.inner);
      var s := Show(d.inner) + rest;
      StarFirst(QualToks(d.quals), Show(d.inner), rest);
      TakeShown(d.quals, s);
      ReadDecl(d.inner, rest);
    } else {
      ReadDirect(d, rest);
    }
  }

  lemma {:induction false} ReadDirect(d: Decl, rest: seq<Tok>)
    requires Writable(d) && After(rest)
    ensures ParseDirect(ShowDirect(d) + rest) == ParsePost(d, rest)
    decreases d, if d.PtrD? then 2 else 0
  {
    match d
    case NameD(None) => assert ShowDirect(d) + rest == rest;
    case NameD(Some(x)) => assert ([Ident(x)] + rest)[1..] == rest;
    case ArrD(i, n) =>
      Associate(ShowDirect(i), SizeToks(n), rest);
      ReadDirect(i, SizeToks(n) + rest);
      SizeRead(i, n, rest);
    case FunD(i, ps, more) =>
      var s := [LPar] + ShowParms(ps, more) + [RPar] + rest;
      Associate(ShowDirect(i), [LPar] + ShowParms(ps, more) + [RPar], rest);
      ParmsStart(ps, more);
      ReadDirect(i, s);
      ReadList(i, ps, more, rest);
    case PtrD(_, _) =>
      Grouped(Show(d), rest);
      ReadDecl(d, [RPar] + rest);
  }

  /** Parentheses around a declarator change nothing. */
  lemma {:induction false} ParensAreRead(d: Decl, rest: seq<Tok>)
    requires Writable(d) && Follow(rest) && Show(d) != []
    ensures ParseDecl([LPar] + Show(d) + [RPar] + rest) == Ok(d, rest)
  {
    var s := [LPar] + Show(d) + [RPar] + rest;
    Grouped(Show(d), rest);
    ShownOpens(d);
    ReadDecl(d, [RPar] + rest);
    assert Grouping(s) && ParseDecl(s) == ParseDirect(s) == ParsePost(d, rest);
  }

  lemma {:induction false} ShownOpens(d: Decl)
    ensures Show(d) != [] ==> Opens(Show(d)[0])
    ensures ShowDirect(d) != [] ==> Opens(ShowDirect(d)[0])
    decreases d
  {
    ShowStarts(d);
    match d
    case NameD(_) =>
    case PtrD(_, _) => assert ShowDirect(d)[0] == LPar;
    case ArrD(i, n) =>
      ShownOpens(i);
      assert SizeToks(n)[0] == LBr;
    case FunD(i, _, _) => ShownOpens(i);
  }

  /** What a declarator can begin with. */
  predicate Opens(x: Tok) { x == Star || x == LPar || x == LBr || x.Ident? }

  lemma {:induction false} Grouped(i: seq<Tok>, rest: seq<Tok>)
    ensures var s := [LPar] + i + [RPar] + rest;
            s[0] == LPar && s[1..] == i + ([RPar] + rest) && (i != [] ==> s[1] == i[0]) && ([RPar] + rest)[1..] == rest
  {
  }

  lemma {:induction false} SizeRead(d: Decl, n: Option<int>, rest: seq<Tok>)
    ensures After(SizeToks(n) + rest) && ParsePost(d, SizeToks(n) + rest) == ParsePost(ArrD(d, n), rest)
  {
    var s := SizeToks(n) + rest;
    assert if n.None? then s[2..] == rest else s[3..] == rest;
  }

  lemma {:induction false} ParmsStart(ps: seq<Parm>, more: bool)
    ensures ps == [] ==> ShowParms(ps, more) == []
    ensures ps != [] ==> ShowParms(ps, more) != [] && (ShowParms(ps, more)[0].Q? || ShowParms(ps, more)[0].TypeName?)
  {
    if ps != [] {
      assert ShowSpecs(ps[0].name, ps[0].quals) != [];
      assert ShowParm(ps[0])[0] == ShowSpecs(ps[0].name, ps[0].quals)[0];
    }
  }

  lemma {:induction false} ReadList(d: Decl, ps: seq<Parm>, more: bool, rest: seq<Tok>)
    requires WritableParms(ps) && (more ==> ps != [])
    ensures ParsePost(d, [LPar] + ShowParms(ps, more) + [RPar] + rest) == ParsePost(FunD(d, ps, more), rest)
    decreases ps, 2
  {
    var s := [LPar] + ShowParms(ps, more) + [RPar] + rest;
    ParmsStart(ps, more);
    if ps == [] {
      assert s[2..] == rest;
    } else {
      assert s[1..] == ShowParms(ps, more) + [RPar] + rest;
      ReadParms(ps, more, rest);
    }
  }

  lemma {:induction false} ReadParms(ps: seq<Parm>, more: bool, rest: seq<Tok>)
    requires WritableParms(ps) && ps != []
    ensures ParseParms(ShowParms(ps, more) + [RPar] + rest) == Ok((ps, more), rest)
    decreases ps, 1
  {
    if |ps| == 1 {
      ReadParm(ps[0], LastEnd(more, rest));
      ReadLast(ps[0], more, rest);
      assert ps == [ps[0]];
    } else {
      ReadParms(ps[1..], more, rest);
      var end := ShowParms(ps[1..], more) + [RPar] + rest;
      ReadParm(ps[0], [Comma] + end);
      ParmsStart(ps[1..], more);
      assert end[0] == ShowParms(ps[1..], more)[0];
      assert ([Comma] + end)[1..] == end;
      Rejoin(ShowParm(ps[0]), ShowParms(ps[1..], more), rest);
      assert ps == [ps[0]] + ps[1..];
    }
  }

  lemma {:induction false} Rejoin(a: seq<Tok>, b: seq<Tok>, rest: seq<Tok>)
    ensures a + [Comma] + b + [RPar] + rest == a + ([Comma] + (b + [RPar] + rest))
  {
  }

  function LastEnd(more: bool, rest: seq<Tok>): seq<Tok> { (if more then [Comma, Ellipsis] else []) + [RPar] + rest }

  lemma {:induction false} ReadLast(p: Parm, more: bool, rest: seq<Tok>)
    requires ParseParm(ShowParm(p) + LastEnd(more, rest)) == Ok(p, LastEnd(more, rest))
    ensures ParseParms(ShowParms([p], more) + [RPar] + rest) == Ok(([p], more), rest)
  {
    var end := LastEnd(more, rest);
    assert ShowParms([p], more) + [RPar] + rest == ShowParm(p) + end;
    assert if more then end[3..] == rest else end[1..] == rest;
  }

  lemma {:induction false} ReadParm(p: Parm, rest: seq<Tok>)
    requires Writable(p.d) && Follow(rest)
    ensures ParseParm(ShowParm(p) + rest) == Ok(p, rest)
    decreases p, 0
  {
    ShowStarts(p.d);
    assert ShowParm(p) + rest == ShowSpecs(p.name, p.quals) + (Show(p.d) + rest);
    SpecsRead(p.name, p.quals, Show(p.d) + rest);
    ReadDecl(p.d, rest);
  }

  // ----- what comes back -----

  function OuterQuals(t: Ty): Quals {
    match t
    case Base(_, q) => q
    case Ptr(_, q) => q
    case Arr(el, _) => OuterQuals(el)
    case Fun(_, _) => {}
  }

  /** The types that grokdeclarator makes: no arrays of functions or of void,
      no functions returning functions or arrays; restrict only on pointers to
      objects and not on array elements.  A parameter may have any of them. */
  predicate Made(e: Names, t: Ty)
    decreases t, 0
  {
    match t
    case Base(n, q) => Restrict in q ==> e.pointer(n)
    case Ptr(to, q) => Made(e, to) && (Restrict in q ==> !to.Fun?)
    case Arr(el, _) => Made(e, el) && !el.Fun? && !IsVoid(el) && Restrict !in OuterQuals(el)
    case Fun(r, ps) =>
      Made(e, r) && !Derived(r) && (ps.Listed? ==> (ps.more ==> ps.types != []) && MadeParms(e, ps.types))
  }

  predicate MadeParms(e: Names, ts: seq<Ty>)
    decreases ts, 1
  {
    ts != [] ==> Made(e, ts[0]) && MadeParms(e, ts[1..])
  }

  /** The type of a parameter that is declared to be of type `t`: a pointer to
      the elements of an array, a pointer to a function, and no qualifiers of its own. */
  function Adjusted(t: Ty): Ty {
    match t
    case Base(n, _) => Base(n, {})
    case Ptr(to, _) => Ptr(to, {})
    case Arr(el, _) => Ptr(el, {})
    case Fun(_, _) => Ptr(t, {})
  }

  /** A list of one void and no ellipsis. */
  predicate LoneVoid(ts: seq<Ty>, more: bool) { !more && |ts| == 1 && IsVoid(ts[0]) }

  /** The type that the text says, if it says one: without restrict on pointers,
      and with the array sizes that were written. */
  function Said(e: Names, t: Ty): Ty
    decreases t, 0
  {
    match t
    case Base(_, _) => t
    case Ptr(to, q) => Ptr(Said(e, to), q - {Restrict})
    case Arr(el, n) => Arr(Said(e, el), AsSize(ShownSize(e, el, n)))
    case Fun(r, Open) => Fun(Said(e, r), Open)
    case Fun(r, Listed(ts, more)) =>
      Fun(Said(e, r), Listed(if LoneVoid(ts, more) then [] else SaidAll(e, ts), more))
  }

  function SaidAll(e: Names, ts: seq<Ty>): (r: seq<Ty>)
    ensures |r| == |ts|
    decreases ts, 1
  {
    if ts == [] then [] else [Adjusted(Said(e, ts[0]))] + SaidAll(e, ts[1..])
  }

  /** The loop's type and qualifiers when it has built `t` but not yet merged its qualifiers. */
  function Bare(e: Names, t: Ty): Ty {
    match t
    case Base(n, _) => Base(n, {})
    case Ptr(to, _) => Ptr(Said(e, to), {})
    case _ => Said(e, t)
  }

  function Pending(t: Ty): Quals {
    match t
    case Base(_, q) => q
    case Ptr(_, q) => q - {Restrict}
    case Arr(el, _) => Pending(el)
    case Fun(_, _) => {}
  }

  /** Merging the pending qualifiers completes the type, and merging them again does nothing. */
  lemma {:induction false} MergeCompletes(e: Names, t: Ty)
    requires Made(e, t) && !t.Fun?
    ensures Qualified(e, Bare(e, t), Pending(t)) == Said(e, t) && Qualified(e, Said(e, t), Pending(t)) == Said(e, t)
    ensures Pending(t) == {} ==> Bare(e, t) == Said(e, t)
    ensures t.Arr? ==> Restrict !in Pending(t)
  {
    match t
    case Base(_, _) =>
    case Ptr(to, q) =>
      assert (q - {Restrict}) - {Restrict} == q - {Restrict};
    case Arr(el, _) =>
      MergeCompletes(e, el);
      PendingOuter(el);
      assert Pending(el) - {Restrict} == Pending(el);
  }

  lemma {:induction false} PendingOuter(t: Ty)
    ensures Pending(t) <= OuterQuals(t)
  {
    if t.Arr? { PendingOuter(t.elem); }
  }

  /** The text says a type: no size is negative, and no parameter among others is void. */
  predicate Readable(e: Names, t: Ty)
    decreases t, 0
  {
    match t
    case Base(_, _) => true
    case Ptr(to, _) => Readable(e, to)
    case Arr(el, n) => Readable(e, el) && !Negative(ShownSize(e, el, n))
    case Fun(r, Open) => Readable(e, r)
    case Fun(r, Listed(ts, more)) => Readable(e, r) && (LoneVoid(ts, more) || ReadableAll(e, ts))
  }

  predicate ReadableAll(e: Names, ts: seq<Ty>)
    decreases ts, 1
  {
    ts != [] ==> Readable(e, ts[0]) && !IsVoid(ts[0]) && ReadableAll(e, ts[1..])
  }

  /** An array takes the qualifiers of its elements, which stay pending. */
  lemma {:induction false} MergeArray(e: Names, el: Ty, n: Option<nat>)
    requires Made(e, Arr(el, n))
    ensures Merge(e, Arr(Bare(e, el), AsSize(ShownSize(e, el, n))), Pending(el)) == Said(e, Arr(el, n))
    ensures !IsVoid(Bare(e, el)) && !Bare(e, el).Fun?
  {
    MergeCompletes(e, el);
    PendingOuter(el);
    assert Pending(el) - {Restrict} == Pending(el);
  }

  /** The loop, given the declarator of `t`, arrives at `t`. */
  lemma {:induction false} GrokAround(e: Names, d: Decl, t: Ty)
    requires Made(e, t) && Readable(e, t)
    ensures Grok(e, Base(BaseName(t), {}), BaseQuals(t), Around(e, d, t)) == Grok(e, Bare(e, t), Pending(t), d)
    decreases t, 1
  {
    match t
    case Base(_, _) =>
    case Ptr(to, q) =>
      GrokAround(e, PtrD(q - {Restrict}, d), to);
      if !to.Fun? { MergeCompletes(e, to); }
    case Arr(el, n) =>
      GrokAround(e, ArrD(d, ShownSize(e, el, n)), el);
      MergeArray(e, el, n);
    case Fun(r, Open) =>
      GrokAround(e, FunD(d, [], false), r);
      MergeCompletes(e, r);
    case Fun(r, Listed(ts, more)) =>
      MergeCompletes(e, r);
      if ts == [] {
        GrokAround(e, FunD(d, [Parm("void", {}, NameD(None))], false), r);
        GrokVoid(e);
      } else {
        GrokAround(e, FunD(d, AsParms(e, ts), more), r);
        GrokList(e, ts, more);
      }
  }

  lemma {:induction false} GrokList(e: Names, ts: seq<Ty>, more: bool)
    requires ts != [] && MadeParms(e, ts) && (LoneVoid(ts, more) || ReadableAll(e, ts))
    ensures GrokParms(e, AsParms(e, ts), more) == Some(Listed(if LoneVoid(ts, more) then [] else SaidAll(e, ts), more))
    decreases ts, 2
  {
    VoidParms(e, ts);
    var ps := AsParms(e, ts);
    assert ps[0] == AsParm(e, ts[0]);
    VoidParm(e, ts[0]);
    if !LoneVoid(ts, more) { GrokAll(e, ts); }
  }

  lemma {:induction false} GrokVoid(e: Names)
    ensures GrokParms(e, [Parm("void", {}, NameD(None))], false) == Some(Listed([], false))
  {
    var ps := [Parm("void", {}, NameD(None))];
    assert UnnamedVoid(ps[0]);
  }

  lemma {:induction false} AroundGrows(e: Names, d: Decl, t: Ty)
    ensures !d.NameD? ==> !Around(e, d, t).NameD?
    decreases t
  {
    match t
    case Base(_, _) =>
    case Ptr(to, q) => AroundGrows(e, PtrD(q - {Restrict}, d), to);
    case Arr(el, n) => AroundGrows(e, ArrD(d, ShownSize(e, el, n)), el);
    case Fun(r, Open) => AroundGrows(e, FunD(d, [], false), r);
    case Fun(r, Listed(ts, more)) =>
      var d' := if ts == [] then FunD(d, [Parm("void", {}, NameD(None))], false) else FunD(d, AsParms(e, ts), more);
      AroundGrows(e, d', r);
  }

  /** Only void itself is written as an unnamed void. */
  lemma {:induction false} VoidParm(e: Names, t: Ty)
    ensures UnnamedVoid(AsParm(e, t)) <==> IsVoid(t)
  {
    match t
    case Base(_, _) =>
    case Ptr(to, q) => AroundGrows(e, PtrD(q - {Restrict}, NameD(None)), to);
    case Arr(el, n) => AroundGrows(e, ArrD(NameD(None), ShownSize(e, el, n)), el);
    case Fun(r, Open) => AroundGrows(e, FunD(NameD(None), [], false), r);
    case Fun(r, Listed(ts, more)) =>
      var d := if ts == [] then FunD(NameD(None), [Parm("void", {}, NameD(None))], false)
               else FunD(NameD(None), AsParms(e, ts), more);
      AroundGrows(e, d, r);
  }

  lemma {:induction false} VoidParms(e: Names, ts: seq<Ty>)
    ensures (exists p <- AsParms(e, ts) :: UnnamedVoid(p)) <==> exists t <- ts :: IsVoid(t)
    ensures ReadableAll(e, ts) ==> forall t <- ts :: !IsVoid(t)
    decreases ts
  {
    if ts != [] {
      VoidParm(e, ts[0]);
      VoidParms(e, ts[1..]);
      var ps := AsParms(e, ts);
      assert ps[0] == AsParm(e, ts[0]) && ps[1..] == AsParms(e, ts[1..]);
      assert forall p :: p in ps <==> p == ps[0] || p in ps[1..];
      assert forall t :: t in ts <==> t == ts[0] || t in ts[1..];
    }
  }

  /** A parameter declared with any type has the type adjusted, with what the
      text says of it. */
  lemma {:induction false} ParmIsAdjusted(e: Names, t: Ty)
    requires Made(e, t) && Readable(e, t)
    ensures GrokParm(e, AsParm(e, t)) == Some(Adjusted(Said(e, t)))
    decreases t, 2
  {
    GrokAround(e, NameD(None), t);
    if t.Arr? { MergeCompletes(e, t.elem); }
  }

  lemma {:induction false} GrokAll(e: Names, ts: seq<Ty>)
    requires MadeParms(e, ts) && ReadableAll(e, ts)
    ensures GrokEach(e, AsParms(e, ts)) == Some(SaidAll(e, ts))
    decreases ts, 1
  {
    if ts != [] {
      ParmIsAdjusted(e, ts[0]);
      GrokAll(e, ts[1..]);
      var ps := AsParms(e, ts);
      assert ps[0] == AsParm(e, ts[0]) && ps[1..] == AsParms(e, ts[1..]);
    }
  }

  lemma {:induction false} AroundWritable(e: Names, d: Decl, t: Ty)
    requires Writable(d)
    ensures Writable(Around(e, d, t))
    decreases t, 1
  {
    match t
    case Base(_, _) =>
    case Ptr(to, q) => AroundWritable(e, PtrD(q - {Restrict}, d), to);
    case Arr(el, n) => AroundWritable(e, ArrD(d, ShownSize(e, el, n)), el);
    case Fun(r, Open) => AroundWritable(e, FunD(d, [], false), r);
    case Fun(r, Listed(ts, more)) =>
      if ts == [] {
        assert [Parm("void", {}, NameD(None))][1..] == [];
        AroundWritable(e, FunD(d, [Parm("void", {}, NameD(None))], false), r);
      } else {
        ParmsWritable(e, ts);
        AroundWritable(e, FunD(d, AsParms(e, ts), more), r);
      }
  }

  lemma {:induction false} ParmsWritable(e: Names, ts: seq<Ty>)
    ensures WritableParms(AsParms(e, ts))
    decreases ts, 0
  {
    if ts != [] {
      AroundWritable(e, NameD(None), ts[0]);
      ParmsWritable(e, ts[1..]);
      assert AsParms(e, ts)[1..] == AsParms(e, ts[1..]);
    }
  }

  /** A negative size anywhere is an error, and so is a void among other parameters. */
  lemma {:induction false} GrokFails(e: Names, d: Decl, t: Ty)
    requires Made(e, t) && !Readable(e, t)
    ensures Grok(e, Base(BaseName(t), {}), BaseQuals(t), Around(e, d, t)) == None
    decreases t, 2
  {
    match t
    case Ptr(to, q) => GrokFails(e, PtrD(q - {Restrict}, d), to);
    case Arr(el, n) =>
      var d' := ArrD(d, ShownSize(e, el, n));
      if Readable(e, el) { GrokAround(e, d', el); } else { GrokFails(e, d', el); }
    case Fun(r, Open) => GrokFails(e, FunD(d, [], false), r);
    case Fun(r, Listed(ts, more)) =>
      var d' := if ts == [] then FunD(d, [Parm("void", {}, NameD(None))], false) else FunD(d, AsParms(e, ts), more);
      if Readable(e, r) {
        GrokAround(e, d', r);
        ListFails(e, ts, more);
      } else {
        GrokFails(e, d', r);
      }
  }

  lemma {:induction false} ListFails(e: Names, ts: seq<Ty>, more: bool)
    requires MadeParms(e, ts) && !LoneVoid(ts, more) && !ReadableAll(e, ts)
    ensures ts != [] && GrokParms(e, AsParms(e, ts), more) == None
    decreases ts, 1
  {
    var ps := AsParms(e, ts);
    assert ps[0] == AsParm(e, ts[0]);
    VoidParm(e, ts[0]);
    VoidParms(e, ts);
    if forall t <- ts :: !IsVoid(t) { AllFail(e, ts); }
  }

  lemma {:induction false} AllFail(e: Names, ts: seq<Ty>)
    requires MadeParms(e, ts) && !ReadableAll(e, ts) && forall t <- ts :: !IsVoid(t)
    ensures ts != [] && GrokEach(e, AsParms(e, ts)) == None
    decreases ts, 0
  {
    var ps := AsParms(e, ts);
    assert ps[0] == AsParm(e, ts[0]) && ps[1..] == AsParms(e, ts[1..]);
    if Readable(e, ts[0]) { AllFail(e, ts[1..]); } else { GrokFails(e, NameD(None), ts[0]); }
  }

  // ----- what is read -----

  /** No parameter anywhere is an array or a function, or has qualifiers of its own. */
  predicate Settled(t: Ty)
    decreases t, 0
  {
    match t
    case Base(_, _) => true
    case Ptr(to, _) => Settled(to)
    case Arr(el, _) => Settled(el)
    case Fun(r, ps) => Settled(r) && (ps.Listed? ==> SettledAll(ps.types))
  }

  predicate SettledAll(ts: seq<Ty>)
    decreases ts, 1
  {
    ts != [] ==> Settled(ts[0]) && !Derived(ts[0]) && OuterQuals(ts[0]) == {} && SettledAll(ts[1..])
  }

  predicate Proper(e: Names, t: Ty) { Made(e, t) && Settled(t) }

  /** The loop's type: its qualifiers are still pending, but for those that went to the elements of an array. */
  predicate InLoop(e: Names, t: Ty) { Proper(e, t) && Restrict !in OuterQuals(t) && (!t.Arr? ==> OuterQuals(t) == {}) }

  lemma {:induction false} QualifiedProper(e: Names, t: Ty, q: Quals)
    requires Proper(e, t)
    ensures var r := Qualified(e, t, q);
            && Proper(e, r) && (r.Fun? <==> t.Fun?) && (r.Arr? <==> t.Arr?) && (IsVoid(r) <==> IsVoid(t))
            && (Restrict !in q || t.Arr? ==> Restrict !in OuterQuals(r))
    decreases t
  {
    if t.Arr? { QualifiedProper(e, t.elem, q - {Restrict}); }
  }

  /** Whatever declarator grokdeclarator accepts, the type it arrives at is one
      it can make, and all its parameters are adjusted. */
  lemma {:induction false} GrokIsProper(e: Names, t: Ty, q: Quals, d: Decl)
    requires InLoop(e, t)
    ensures var r := Grok(e, t, q, d); r.Some? ==> InLoop(e, r.value.0)
    decreases d, 0
  {
    match d
    case NameD(_) =>
    case ArrD(i, n) =>
      if !(IsVoid(t) || t.Fun? || Negative(n)) {
        QualifiedProper(e, Arr(t, AsSize(n)), q);
        GrokIsProper(e, Merge(e, Arr(t, AsSize(n)), q), q, i);
      }
    case FunD(i, ps, more) =>
      if !Derived(t) && GrokParms(e, ps, more).Some? {
        QualifiedProper(e, t, q);
        ParmsAreProper(e, ps);
        GrokIsProper(e, Fun(Merge(e, t, q), GrokParms(e, ps, more).value), {}, i);
      }
    case PtrD(q', i) =>
      QualifiedProper(e, t, q);
      GrokIsProper(e, Ptr(Merge(e, t, q), {}), q', i);
  }

  lemma {:induction false} ParmsAreProper(e: Names, ps: seq<Parm>)
    ensures var r := GrokEach(e, ps); r.Some? ==> |r.value| == |ps| && MadeParms(e, r.value) && SettledAll(r.value)
    decreases ps, 0
  {
    if ps != [] {
      ParmIsProper(e, ps[0]);
      ParmsAreProper(e, ps[1..]);
    }
  }

  lemma {:induction false} ParmIsProper(e: Names, p: Parm)
    ensures var r := GrokParm(e, p); r.Some? ==> Proper(e, r.value) && !Derived(r.value) && OuterQuals(r.value) == {}
    decreases p, 0
  {
    GrokIsProper(e, Base(p.name, {}), p.quals, p.d);
    var g := Grok(e, Base(p.name, {}), p.quals, p.d);
    if g.Some? && g.value.0.Arr? { QualifiedProper(e, g.value.0.elem, g.value.1); }
  }

  /** Every declaration that is read has such a type. */
  lemma ReadIsProper(e: Names, s: seq<Tok>)
    ensures var r := Read(e, s); r.Some? ==> Proper(e, r.value)
  {
    if Read(e, s).Some? {
      var specs := ParseSpecs(s);
      var (n, q) := specs.value;
      var d := ParseDecl(specs.rest).value;
      GrokIsProper(e, Base(n, {}), q, d);
      var (t, q') := Grok(e, Base(n, {}), q, d).value;
      QualifiedProper(e, t, q');
    }
  }

  // ----- the round trip -----

  /** The text of a declaration of `name`, or of a type name; none if a number
      overruns the buffer it is printed into. */
  function Text(e: Names, name: Option<string>, t: Ty, dataType: string): Option<seq<Tok>> {
    var (s, d) := Gen(e, match name case Some(x) => [Ident(x)] case None => [], t, dataType);
    if EachSize(e, t, FitsBuffer) then Some(Affix(s, d)) else None
  }

  /** Whatever data_type held before, a text reads as the type it says, or not
      at all if it gives a negative size or a void among other parameters. */
  lemma {:induction false} TextReads(e: Names, name: Option<string>, t: Ty, dataType: string)
    requires Made(e, t) && Text(e, name, t, dataType).Some?
    ensures Read(e, Text(e, name, t, dataType).value) == if Readable(e, t) then Some(Said(e, t)) else None
  {
    var d := Around(e, NameD(name), t);
    TextShows(e, name, t, dataType);
    ShowStarts(d);
    SpecsRead(BaseName(t), BaseQuals(t), Show(d));
    AroundWritable(e, NameD(name), t);
    ReadDecl(d, []);
    assert Show(d) + [] == Show(d);
    if Readable(e, t) {
      GrokAround(e, NameD(name), t);
      if !t.Fun? { MergeCompletes(e, t); }
    } else {
      GrokFails(e, NameD(name), t);
    }
  }

  lemma {:induction false} TextShows(e: Names, name: Option<string>, t: Ty, dataType: string)
    requires Text(e, name, t, dataType).Some?
    ensures Text(e, name, t, dataType).value
            == ShowSpecs(BaseName(t), BaseQuals(t)) + Show(Around(e, NameD(name), t))
  {
    var d0 := NameD(name);
    var d := Around(e, d0, t);
    GenShows(e, d0, t, dataType);
    var seed := match name case Some(x) => [Ident(x)] case None => [];
    assert Seed(d0, t) == seed by {
      ShowStarts(d0);
      match name case Some(x) => case None =>
    }
    ShowStarts(d);
    AffixShows(BaseQuals(t), Show(d), BaseName(t));
  }

  /** The length of an array of `k`-byte elements comes out as it is: it has at
      most seven digits, and the size of the array does not overflow a wide
      integer, or cancels out. */
  predicate LengthKept(e: Names, n: nat, k: nat) {
    n == 0 || (k > 0 && n <= 9_999_999 && (n == 1 || n * k < e.half))
  }

  /** Nothing is lost in writing: no restrict pointer; the length of every array
      is unspecified, or of complete elements and kept; and no parameter is
      void, an array or a function or has qualifiers of its own. */
  predicate Faithful(e: Names, t: Ty)
    decreases t, 0
  {
    match t
    case Base(_, _) => true
    case Ptr(to, q) => Restrict !in q && Faithful(e, to)
    case Arr(el, n) => Faithful(e, el) && (n.Some? ==> Bytes(e, el).Some? && LengthKept(e, n.value, Bytes(e, el).value))
    case Fun(r, ps) => Faithful(e, r) && (ps.Listed? ==> FaithfulAll(e, ps.types))
  }

  predicate FaithfulAll(e: Names, ts: seq<Ty>)
    decreases ts, 1
  {
    ts != [] ==>
      && Faithful(e, ts[0]) && FaithfulAll(e, ts[1..])
      && !IsVoid(ts[0]) && !Derived(ts[0]) && OuterQuals(ts[0]) == {}
  }

  function Digits(n: nat): nat { if n < 10 then 1 else 1 + Digits(n / 10) }

  /** The length of a number in decimal. */
  function PrintedLength(n: int): nat { if n < 0 then 1 + Digits(-n) else Digits(n) }

  lemma DigitsGrow(m: nat, n: nat)
    requires m <= n
    ensures Digits(m) <= Digits(n)
  {
    if m >= 10 { DigitsGrow(m / 10, n / 10); }
  }

  /** The buffer holds exactly the numbers that leave room for brackets and terminator. */
  lemma {:induction false} FitsIff(n: int)
    ensures FitsBuffer(n) <==> PrintedLength(n) + 3 <= 10
  {
    assert Digits(99) == 2 && Digits(9_999) == 4 && Digits(999_999) == 6 && Digits(9_999_999) == 7;
    assert Digits(100) == 3 && Digits(10_000) == 5 && Digits(1_000_000) == 7 && Digits(10_000_000) == 8;
    var m := if n < 0 then -n else n;
    if m <= 999_999 { DigitsGrow(m, 999_999); } else { DigitsGrow(1_000_000, m); }
    if m <= 9_999_999 { DigitsGrow(m, 9_999_999); } else { DigitsGrow(10_000_000, m); }
  }

  /** The length of an array of pointers is kept as if they were of their size. */
  lemma PointerArrays(e: Names, to: Ty, q: Quals, n: nat)
    ensures Faithful(e, Arr(Ptr(to, q), Some(n)))
            <==> Restrict !in q && Faithful(e, to) && LengthKept(e, n, e.pointerBytes)
  {
  }

  lemma {:induction false} SizeKept(e: Names, el: Ty, n: Option<nat>)
    ensures var w := ShownSize(e, el, n);
            && (w.Some? ==> FitsBuffer(w.value) && w.value >= 0) && AsSize(w) == n
            <==> (n.Some? ==> Bytes(e, el).Some? && LengthKept(e, n.value, Bytes(e, el).value))
  {
    if n.Some? && Bytes(e, el).Some? {
      var m, k := n.value, Bytes(e, el).value;
      if m > 0 && k > 0 { QuotientKept(e, m, k); }
    }
  }

  /** The number written for `n` elements of `k` bytes. */
  lemma {:induction false} QuotientKept(e: Names, n: nat, k: nat)
    requires n > 0 && k > 0
    ensures n * k > 0
    ensures var w := AsInt(TruncDiv(Wide(e, n * k), Wide(e, k))); FitsBuffer(w) && w == n <==> LengthKept(e, n, k)
  {
    Quotient(n, k);
    var q := TruncDiv(Wide(e, n * k), Wide(e, k));
    if n * k < e.half {
      assert k <= n * k;
      assert q == n;
    } else if n == 1 {
      assert n * k == k;
      SelfQuotient(Wide(e, k));
    } else if n <= 9_999_999 {
      SmallQuotient(e, n, k);
    }
  }

  lemma {:induction false} SelfQuotient(v: int)
    requires v != 0
    ensures TruncDiv(v, v) == 1
  {
  }

  /** Where the size overflows, the quotient is at most `n` in size, and not `n`. */
  lemma {:induction false} SmallQuotient(e: Names, n: nat, k: nat)
    requires n > 1 && k > 0 && n * k >= e.half
    ensures var q := TruncDiv(Wide(e, n * k), Wide(e, k)); q < n && q + n >= 0
  {
    var a, b := Wide(e, n * k), Wide(e, k);
    if n * k >= 2 * e.half {
      UnitQuotient(b);
    } else {
      Doubles(n, k);
      BoundedQuotient(-a, n, k);
    }
  }

  lemma {:induction false} Doubles(n: nat, k: nat)
    requires n > 1
    ensures n * k >= 2 * k
  {
  }

  lemma {:induction false} BoundedQuotient(a: int, n: nat, k: nat)
    requires k > 0 && 0 < a <= n * k
    ensures 0 <= a / k <= n
  {
    var q := a / k;
    assert a == k * q + a % k;
    assert q >= n + 1 ==> k * q >= k * (n + 1);
    assert k * (n + 1) == n * k + k;
    assert q <= -1 ==> k * q <= 0 - k;
  }

  lemma {:induction false} UnitQuotient(b: int)
    requires b != 0
    ensures -1 <= TruncDiv(-1, b) <= 1
  {
    var q := 1 / b;
    assert 1 == b * q + 1 % b;
    assert q >= 2 && b >= 1 ==> b * q >= 2;
    assert q >= 2 && b <= -1 ==> b * q <= -2;
    assert q <= -2 && b >= 1 ==> b * q <= -2;
    assert q <= -2 && b <= -1 ==> b * q >= 2;
  }

  lemma {:induction false} Quotient(n: nat, k: nat)
    requires k > 0
    ensures n * k / k == n && (n > 0 ==> n * k > 0)
  {
    var q := n * k / k;
    assert n * k == q * k + n * k % k;
    assert (n - q) * k == n * k % k;
    assert n - q >= 1 ==> (n - q) * k >= k;
    assert n - q <= -1 ==> (n - q) * k + k <= 0;
  }

  /** The text is printed, gives no negative size, and says the type itself. */
  ghost predicate Kept(e: Names, t: Ty) { EachSize(e, t, FitsBuffer) && Readable(e, t) && Said(e, t) == t }

  ghost predicate KeptAll(e: Names, ts: seq<Ty>) {
    EachSizeOf(e, ts, FitsBuffer) && ReadableAll(e, ts) && SaidAll(e, ts) == ts
  }

  lemma {:induction false} SaidIsFaithful(e: Names, t: Ty)
    ensures Kept(e, t) <==> Faithful(e, t)
    decreases t, 1
  {
    match t
    case Base(_, _) =>
    case Ptr(to, q) =>
      SaidIsFaithful(e, to);
      assert q - {Restrict} == q <==> Restrict !in q;
    case Arr(el, n) =>
      SaidIsFaithful(e, el);
      SizeKept(e, el, n);
    case Fun(r, Open) => SaidIsFaithful(e, r);
    case Fun(r, Listed(ts, more)) =>
      SaidIsFaithful(e, r);
      AllFaithful(e, ts);
  }

  lemma {:induction false} AllFaithful(e: Names, ts: seq<Ty>)
    ensures KeptAll(e, ts) <==> FaithfulAll(e, ts)
    decreases ts, 0
  {
    if ts != [] {
      SaidIsFaithful(e, ts[0]);
      AllFaithful(e, ts[1..]);
      var rs := SaidAll(e, ts);
      assert rs[0] == Adjusted(Said(e, ts[0])) && rs[1..] == SaidAll(e, ts[1..]);
      assert ts == [ts[0]] + ts[1..];
    }
  }

  /** A type has a text that reads as the type exactly if it is faithful. */
  lemma {:induction false} RoundTripIff(e: Names, name: Option<string>, t: Ty, dataType: string)
    requires Made(e, t)
    ensures var text := Text(e, name, t, dataType); text.Some? && Read(e, text.value) == Some(t) <==> Faithful(e, t)
  {
    if Text(e, name, t, dataType).Some? { TextReads(e, name, t, dataType); }
    SaidIsFaithful(e, t);
  }

  /** A restrict pointer is read back without its qualifier. */
  lemma RestrictIsLost(e: Names, x: string)
    ensures var t := Ptr(Base("int", {}), {Restrict});
            var text := Text(e, Some(x), t, "");
            Made(e, t) && text.Some? && Read(e, text.value) == Some(Ptr(Base("int", {}), {}))
  {
    var t := Ptr(Base("int", {}), {Restrict});
    TextReads(e, Some(x), t, "");
    assert {Restrict} - {Restrict} == {};
  }

  /** An array of ten million characters overruns the buffer. */
  lemma LongArrayOverruns(e: Names, x: string)
    requires e.bytes("char") == Some(1)
    ensures var t := Arr(Base("char", {}), Some(10_000_000)); Made(e, t) && Text(e, Some(x), t, "").None?
  {
    var el := Base("char", {});
    QuotientKept(e, 10_000_000, 1);
    assert Bytes(e, Arr(el, Some(10_000_000))) == Some(10_000_000);
    assert TruncDiv(10_000_000, 1) == 10_000_000;
    assert ShownSize(e, el, Some(10_000_000)) == Some(10_000_000);
  }
}
