/** C types, the declarators that name them, and how gen_type writes a type. */
module Declarator {
  import opened Arithmetic
  import opened Options

  datatype Qual = Const | Volatile | Restrict
  type Quals = set<Qual>

  /** Types: a named type, or a type built by a declarator.  Arrays and
      functions carry no qualifiers of their own. */
  datatype Ty =
    | Base(name: string, quals: Quals)
    | Ptr(to: Ty, ptrQuals: Quals)
    | Arr(elem: Ty, size: Option<nat>)
    | Fun(ret: Ty, params: Params)

  /** `Open` is a function without a prototype; `more` an ellipsis at the end. */
  datatype Params = Open | Listed(types: seq<Ty>, more: bool)

  /** Half the range of the host's wide integers, which have at least 32 bits. */
  type Half = n: int | n >= 0x8000_0000 witness 0x8000_0000

  /** What is known of named types, size in bytes if complete and whether the
      name stands for a pointer to an object, and of the host. */
  datatype Names = Names(bytes: string -> Option<nat>, pointer: string -> bool, pointerBytes: nat, half: Half)

  datatype Tok =
    | Star | LPar | RPar | LBr | RBr | Num(n: int) | Comma | Ellipsis
    | Q(q: Qual) | TypeName(name: string) | Ident(id: string)

  // ----- sizes -----

  /** The size of a type in bytes, or nothing if TYPE_SIZE is unknown. */
  function Bytes(e: Names, t: Ty): Option<nat> {
    match t
    case Base(n, _) => e.bytes(n)
    case Ptr(_, _) => Some(e.pointerBytes)
    case Arr(el, Some(n)) => (match Bytes(e, el) case Some(k) => Some(n * k) case None => None)
    case _ => None
  }

  /** int_size_in_bytes of a known size: a wide integer, and -1 for what needs more than one word. */
  function Wide(e: Names, bytes: nat): (r: int)
    ensures bytes > 0 ==> r != 0
  {
    if bytes >= 2 * e.half then -1 else if bytes >= e.half then bytes - 2 * e.half else bytes
  }

  /** The number gen_type puts between brackets. */
  function ShownSize(e: Names, el: Ty, size: Option<nat>): Option<int> {
    match Bytes(e, Arr(el, size))
    case None => None
    case Some(total) =>
      if total == 0 then Some(0)
      else match Bytes(e, el)
           case Some(k) => Some(AsInt(TruncDiv(Wide(e, total), Wide(e, if k == 0 then 1 else k))))
           case None => None
  }

  /** Brackets, the number and the terminator fit into the ten bytes they are printed into. */
  predicate FitsBuffer(n: int) { -999_999 <= n <= 9_999_999 }

  /** Every number that is put between brackets meets `ok`. */
  predicate EachSize(e: Names, t: Ty, ok: int -> bool)
    decreases t, 0
  {
    match t
    case Base(_, _) => true
    case Ptr(to, _) => EachSize(e, to, ok)
    case Arr(el, n) => EachSize(e, el, ok) && (ShownSize(e, el, n).Some? ==> ok(ShownSize(e, el, n).value))
    case Fun(r, ps) => EachSize(e, r, ok) && (ps.Listed? ==> EachSizeOf(e, ps.types, ok))
  }

  predicate EachSizeOf(e: Names, ts: seq<Ty>, ok: int -> bool)
    decreases ts, 1
  {
    ts != [] ==> EachSize(e, ts[0], ok) && EachSizeOf(e, ts[1..], ok)
  }

  // ----- gen_type -----

  function QualTok(q: Quals, x: Qual): seq<Tok> { if x in q then [Q(x)] else [] }

  /** Qualifiers as they come out, each put in front of the ones before. */
  function QualToks(q: Quals): seq<Tok> { QualTok(q, Restrict) + PointerQuals(q) }

  function PointerQuals(q: Quals): seq<Tok> { QualTok(q, Volatile) + QualTok(q, Const) }

  function SizeToks(n: Option<int>): seq<Tok> { [LBr] + (match n case Some(k) => [Num(k)] case None => []) + [RBr] }

  predicate Derived(t: Ty) { t.Arr? || t.Fun? }

  /** gen_type: the declarator grown around `seed`, and data_type afterwards. */
  function Gen(e: Names, seed: seq<Tok>, t: Ty, dataType: string): (r: (seq<Tok>, string))
    decreases t, 0
  {
    match t
    case Base(n, q) => (QualToks(q) + seed, n)
    case Ptr(to, q) =>
      var star := [Star] + PointerQuals(q) + seed;
      Gen(e, if Derived(to) then [LPar] + star + [RPar] else star, to, dataType)
    case Arr(el, n) => Gen(e, seed + SizeToks(ShownSize(e, el, n)), el, dataType)
    case Fun(r, ps) =>
      var (fs, d) := Formals(e, ps, dataType);
      Gen(e, seed + fs, r, d)
  }

  /** gen_formal_list_for_type; the comment that stands for an unknown list is no token. */
  function Formals(e: Names, ps: Params, dataType: string): (seq<Tok>, string)
    decreases ps, 0
  {
    match ps
    case Open => ([LPar, RPar], dataType)
    case Listed(ts, more) =>
      if ts == [] then ([LPar, TypeName("void"), RPar], dataType)
      else
        var (fs, d) := FormalsFrom(e, ts, dataType);
        ([LPar] + fs + (if more then [Comma, Ellipsis] else []) + [RPar], d)
  }

  function FormalsFrom(e: Names, ts: seq<Ty>, dataType: string): (seq<Tok>, string)
    requires ts != []
    decreases ts, 0
  {
    var (s, d) := Gen(e, [], ts[0], dataType);
    if |ts| == 1 then (Affix(s, d), d)
    else
      var (rest, d') := FormalsFrom(e, ts[1..], d);
      (Affix(s, d) + [Comma] + rest, d')
  }

  /** affix_data_type: the type goes in behind leading const and volatile. */
  function Affix(s: seq<Tok>, dataType: string): seq<Tok> {
    if s != [] && (s[0] == Q(Volatile) || s[0] == Q(Const)) then [s[0]] + Affix(s[1..], dataType)
    else [TypeName(dataType)] + s
  }

  // ----- declarators -----

  /** What the grammar actions build. */
  datatype Decl =
    | NameD(id: Option<string>)
    | PtrD(quals: Quals, inner: Decl)
    | ArrD(inner: Decl, size: Option<int>)
    | FunD(inner: Decl, parms: seq<Parm>, more: bool)
  datatype Parm = Parm(name: string, quals: Quals, d: Decl)

  datatype Parsed<+T> = Fail | Ok(value: T, rest: seq<Tok>)

  function TakeQuals(s: seq<Tok>): (r: (Quals, seq<Tok>))
    ensures |r.1| <= |s|
  {
    if s == [] || !s[0].Q? then ({}, s)
    else
      var (q, rest) := TakeQuals(s[1..]);
      ({s[0].q} + q, rest)
  }

  /** declarator and absdcl: `*` with qualifiers binds more loosely than what follows a declarator. */
  function ParseDecl(s: seq<Tok>): (r: Parsed<Decl>)
    ensures r.Ok? ==> |r.rest| <= |s|
    decreases |s|, 2
  {
    if s != [] && s[0] == Star then
      var (q, s1) := TakeQuals(s[1..]);
      match ParseDecl(s1)
      case Fail => Fail
      case Ok(d, rest) => Ok(PtrD(q, d), rest)
    else ParseDirect(s)
  }

  /** A parenthesis that groups, rather than one that opens a parameter list. */
  predicate Grouping(s: seq<Tok>) {
    |s| > 1 && s[0] == LPar && (s[1] == Star || s[1] == LPar || s[1] == LBr || s[1].Ident?)
  }

  function ParseDirect(s: seq<Tok>): (r: Parsed<Decl>)
    ensures r.Ok? ==> |r.rest| <= |s|
    decreases |s|, 1
  {
    if s != [] && s[0].Ident? then ParsePost(NameD(Some(s[0].id)), s[1..])
    else if Grouping(s) then
      match ParseDecl(s[1..])
      case Fail => Fail
      case Ok(d, rest) => if rest != [] && rest[0] == RPar then ParsePost(d, rest[1..]) else Fail
    else ParsePost(NameD(None), s)
  }

  function ParsePost(d: Decl, s: seq<Tok>): (r: Parsed<Decl>)
    ensures r.Ok? ==> |r.rest| <= |s|
    decreases |s|, 0
  {
    if s == [] then Ok(d, s)
    else if s[0] == LBr then
      if |s| > 1 && s[1] == RBr then ParsePost(ArrD(d, None), s[2..])
      else if |s| > 2 && s[1].Num? && s[2] == RBr then ParsePost(ArrD(d, Some(s[1].n)), s[3..])
      else Fail
    else if s[0] == LPar then
      if |s| > 1 && s[1] == RPar then ParsePost(FunD(d, [], false), s[2..])
      else
        match ParseParms(s[1..])
        case Fail => Fail
        case Ok((ps, more), rest) => ParsePost(FunD(d, ps, more), rest)
    else Ok(d, s)
  }

  /** parmlist up to its closing parenthesis. */
  function ParseParms(s: seq<Tok>): (r: Parsed<(seq<Parm>, bool)>)
    ensures r.Ok? ==> |r.rest| <= |s|
    decreases |s|, 4
  {
    match ParseParm(s)
    case Fail => Fail
    case Ok(p, s1) =>
      if s1 != [] && s1[0] == RPar then Ok(([p], false), s1[1..])
      else if |s1| > 2 && s1[0] == Comma && s1[1] == Ellipsis && s1[2] == RPar then Ok(([p], true), s1[3..])
      else if s1 != [] && s1[0] == Comma then
        match ParseParms(s1[1..])
        case Fail => Fail
        case Ok((ps, more), rest) => Ok(([p] + ps, more), rest)
      else Fail
  }

  /** Declaration specifiers: a type name with qualifiers on either side. */
  function ParseSpecs(s: seq<Tok>): (r: Parsed<(string, Quals)>)
    ensures r.Ok? ==> |r.rest| < |s|
  {
    var (q, s1) := TakeQuals(s);
    if s1 != [] && s1[0].TypeName? then
      var (q', rest) := TakeQuals(s1[1..]);
      Ok((s1[0].name, q + q'), rest)
    else Fail
  }

  function ParseParm(s: seq<Tok>): (r: Parsed<Parm>)
    ensures r.Ok? ==> |r.rest| < |s|
    decreases |s|, 3
  {
    match ParseSpecs(s)
    case Fail => Fail
    case Ok((n, q), s1) =>
      match ParseDecl(s1)
      case Fail => Fail
      case Ok(d, rest) => Ok(Parm(n, q, d), rest)
  }

  // ----- the loop of grokdeclarator -----

  predicate IsVoid(t: Ty) { t.Base? && t.name == "void" }

  predicate PointerToObject(e: Names, t: Ty) { (t.Ptr? && !t.to.Fun?) || (t.Base? && e.pointer(t.name)) }

  /** c_build_qualified_type, which replaces the qualifiers of a type and
      reaches through arrays to their elements. */
  function Qualified(e: Names, t: Ty, q: Quals): Ty {
    var q' := if PointerToObject(e, t) then q else q - {Restrict};
    match t
    case Base(n, _) => Base(n, q')
    case Ptr(to, _) => Ptr(to, q')
    case Arr(el, n) => Arr(Qualified(e, el, q'), n)
    case Fun(_, _) => t
  }

  predicate Negative(n: Option<int>) { n.Some? && n.value < 0 }

  function AsSize(n: Option<int>): Option<nat> {
    if n.Some? && n.value >= 0 then Some(n.value) else None
  }

  function Merge(e: Names, t: Ty, q: Quals): Ty { if q == {} then t else Qualified(e, t, q) }

  /** The loop: from the type and qualifiers so far to those of the declared
      name; nothing if there was an error. */
  function Grok(e: Names, t: Ty, q: Quals, d: Decl): Option<(Ty, Quals)>
    decreases d, 0
  {
    match d
    case NameD(_) => Some((t, q))
    case ArrD(i, n) =>
      if IsVoid(t) || t.Fun? || Negative(n) then None else Grok(e, Merge(e, Arr(t, AsSize(n)), q), q, i)
    case FunD(i, ps, more) =>
      if Derived(t) then None
      else (match GrokParms(e, ps, more)
            case None => None
            case Some(args) => Grok(e, Fun(Merge(e, t, q), args), {}, i))
    case PtrD(q', i) => Grok(e, Ptr(Merge(e, t, q), {}), q', i)
  }

  predicate UnnamedVoid(p: Parm) { p.name == "void" && p.d == NameD(None) }

  /** grokparms and get_parm_info: a lone unnamed void means no parameters, and
      one among others is an error. */
  function GrokParms(e: Names, ps: seq<Parm>, more: bool): Option<Params>
    decreases ps, 1
  {
    if ps == [] then Some(Open)
    else if !more && |ps| == 1 && UnnamedVoid(ps[0]) then Some(Listed([], false))
    else if exists p <- ps :: UnnamedVoid(p) then None
    else
      match GrokEach(e, ps)
      case None => None
      case Some(ts) => Some(Listed(ts, more))
  }

  function GrokEach(e: Names, ps: seq<Parm>): Option<seq<Ty>>
    decreases ps, 0
  {
    if ps == [] then Some([])
    else
      var t := GrokParm(e, ps[0]);
      var ts := GrokEach(e, ps[1..]);
      if t.Some? && ts.Some? then Some([t.value] + ts.value) else None
  }

  /** A parameter: arrays and functions become pointers, and the outermost
      qualifiers belong to the parameter and not to its type. */
  function GrokParm(e: Names, p: Parm): Option<Ty>
    decreases p, 0
  {
    match Grok(e, Base(p.name, {}), p.quals, p.d)
    case None => None
    case Some((t, q)) => Some(if t.Arr? then Ptr(Merge(e, t.elem, q), {}) else if t.Fun? then Ptr(t, {}) else t)
  }

  /** A typedef or a type name: its type and the name declared. */
  function Read(e: Names, s: seq<Tok>): Option<Ty> {
    match ParseSpecs(s)
    case Fail => None
    case Ok((n, q), s1) =>
      match ParseDecl(s1)
      case Fail => None
      case Ok(d, rest) =>
        if rest != [] then None
        else match Grok(e, Base(n, {}), q, d) case None => None case Some((t, q')) => Some(Merge(e, t, q'))
  }
}
