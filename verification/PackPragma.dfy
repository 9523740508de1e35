/** Reading a `#pragma pack` directive token by token. */
module PackPragma {
  import opened Arithmetic
  import opened Options
  import opened PackStack

  /** A token of the directive; `Other` is a constant too large for a word, or
      neither an identifier nor an integer. */
  datatype Tok = Mark(text: string) | Word(text: string) | Number(n: int) | Other

  /** A token as the routine sees it: a number is converted to an int. */
  function AsRead(t: Tok): Tok { if t.Number? then Number(AsInt(t.n)) else t }

  datatype Phase =
    | AtStart | AtDone | AtPack | AtLeft | AtAlign | AtRight | AtBad
    | AtPush | AtPushId | AtPushComma | AtPushComma2 | AtPop | AtPopComma

  datatype Kind = NoKind | Unknown | PackK | PushK | PopK

  /** The static variables state, type, align and id. */
  datatype Reader = Reader(phase: Phase, kind: Kind, align: nat, id: Option<Name>)

  datatype Directive = Bare(align: nat) | Stack(c: Command)

  /** What the end of the line gives; with no token seen at all the routine aborts. */
  datatype Outcome = Abort | Rejected | Accepted(d: Directive)

  /** The alignments that a directive may name. */
  predicate Small(n: int) { n in {1, 2, 4, 8, 16} }

  /** The alignment is kept only if the directive can still be accepted. */
  function WithAlign(r: Reader, n: int): Reader {
    var align := AsInt(n);
    if Small(align) then r.(align := align, phase := AtAlign) else r.(phase := AtBad)
  }

  function Expect(r: Reader, t: Tok, text: string, next: Phase): Reader {
    r.(phase := if t == Mark(text) then next else AtBad)
  }

  /** handle_pragma_token for one token. */
  function Step(r: Reader, t: Tok): Reader {
    if t.Other? then r else
    match r.phase
    case AtStart =>
      if t == Word("pack") then r.(phase := AtPack, kind := PackK) else r.(phase := AtDone, kind := Unknown)
    case AtPack => Expect(r, t, "(", AtLeft)
    case AtLeft =>
      (match t
       case Mark(s) => if s == ")" then r.(align := 0, phase := AtRight) else r.(phase := AtBad)
       case Number(n) => WithAlign(r, n)
       case Word(s) =>
         if s == "push" then r.(phase := AtPush, kind := PushK)
         else if s == "pop" then r.(phase := AtPop, kind := PopK)
         else r.(phase := AtBad)
       case Other => r)
    case AtAlign => Expect(r, t, ")", AtRight)
    case AtRight => r.(phase := AtBad)
    case AtPush => Expect(r, t, ",", AtPushComma)
    case AtPushId => Expect(r, t, ",", AtPushComma2)
    case AtPushComma =>
      if t.Word? then r.(id := Some(t.text), phase := AtPushId)
      else if t.Number? then WithAlign(r, t.n) else r.(phase := AtBad)
    case AtPushComma2 => if t.Number? then WithAlign(r, t.n) else r.(phase := AtBad)
    case AtPop => if t == Mark(",") then r.(phase := AtPopComma) else Expect(r, t, ")", AtRight)
    case AtPopComma => if t.Word? then r.(id := Some(t.text), phase := AtAlign) else r.(phase := AtBad)
    case AtBad => r
    case AtDone => r
  }

  function Steps(r: Reader, ts: seq<Tok>): Reader
    decreases |ts|
  {
    if ts == [] then r else Steps(Step(r, ts[0]), ts[1..])
  }

  /** The call at the end of the line. */
  function Finish(r: Reader): Outcome {
    match r.kind
    case NoKind => Abort
    case Unknown => Rejected
    case PackK => if r.phase == AtRight then Accepted(Bare(r.align)) else Rejected
    case PushK => if r.phase == AtRight then Accepted(Stack(PushC(r.align, r.id))) else Rejected
    case PopK => if r.phase == AtRight then Accepted(Stack(PopC(r.id))) else Rejected
  }

  // ----- the directives as written -----

  predicate Writable(d: Directive) {
    match d
    case Bare(n) => n == 0 || IsPower(n)
    case Stack(PushC(n, _)) => IsPower(n)
    case Stack(PopC(_)) => true
  }

  /** What stands behind `pack (`. */
  function Inside(d: Directive): seq<Tok> {
    match d
    case Bare(n) => (if n == 0 then [] else [Number(n)]) + [Mark(")")]
    case Stack(PushC(n, id)) => [Word("push")] + PushTail(n, id)
    case Stack(PopC(id)) => [Word("pop")] + PopTail(id)
  }

  function PushTail(n: nat, id: Option<Name>): seq<Tok> {
    match id
    case None => [Mark(","), Number(n), Mark(")")]
    case Some(x) => [Mark(","), Word(x), Mark(","), Number(n), Mark(")")]
  }

  function PopTail(id: Option<Name>): seq<Tok> {
    match id
    case None => [Mark(")")]
    case Some(x) => [Mark(","), Word(x), Mark(")")]
  }

  function Written(d: Directive): seq<Tok> { [Word("pack"), Mark("(")] + Inside(d) }

  /** The tokens that are not passed over, as they are read. */
  function Kept(ts: seq<Tok>): seq<Tok>
    decreases |ts|
  {
    if ts == [] then [] else (if ts[0].Other? then [] else [AsRead(ts[0])]) + Kept(ts[1..])
  }

  /** None of the tokens is passed over, and all are as they are read. */
  predicate AllRead(ts: seq<Tok>) { forall t <- ts :: !t.Other? && AsRead(t) == t }

  lemma StepAsRead(r: Reader, t: Tok)
    ensures Step(r, t) == Step(r, AsRead(t)) && AsRead(AsRead(t)) == AsRead(t)
  {
  }

  lemma {:induction false} KeptSteps(r: Reader, ts: seq<Tok>)
    ensures Steps(r, ts) == Steps(r, Kept(ts)) && AllRead(Kept(ts))
    decreases |ts|
  {
    if ts != [] {
      KeptSteps(Step(r, ts[0]), ts[1..]);
      KeptSteps(r, ts[1..]);
      StepAsRead(r, ts[0]);
      if !ts[0].Other? { assert Kept(ts)[1..] == Kept(ts[1..]); } else { assert Kept(ts) == Kept(ts[1..]); }
    }
  }

  // ----- which tails lead from each phase to a right parenthesis at the end -----

  lemma {:induction false} FromBad(r: Reader, ts: seq<Tok>)
    requires r.phase == AtBad || r.phase == AtDone
    ensures Steps(r, ts) == r
    decreases |ts|
  {
    if ts != [] { FromBad(r, ts[1..]); }
  }

  /** From `r` the tokens end in `goal` with a closing parenthesis. */
  ghost predicate Ends(r: Reader, ts: seq<Tok>, goal: Reader) { Steps(r, ts) == goal && goal.phase == AtRight }

  lemma {:induction false} One(r: Reader, ts: seq<Tok>)
    requires ts != []
    ensures Steps(r, ts) == Steps(Step(r, ts[0]), ts[1..])
    ensures Step(r, ts[0]).phase == AtBad ==> Steps(r, ts).phase == AtBad
  {
    if Step(r, ts[0]).phase == AtBad { FromBad(Step(r, ts[0]), ts[1..]); }
  }

  lemma {:induction false} FromRight(r: Reader, ts: seq<Tok>, goal: Reader)
    requires r.phase == AtRight && AllRead(ts)
    ensures Ends(r, ts, goal) <==> ts == [] && goal == r
  {
    if ts != [] { One(r, ts); }
  }

  lemma {:induction false} FromAlign(r: Reader, ts: seq<Tok>, goal: Reader)
    requires r.phase == AtAlign && AllRead(ts)
    ensures Ends(r, ts, goal) <==> ts == [Mark(")")] && goal == r.(phase := AtRight)
  {
    if ts != [] {
      One(r, ts);
      if ts[0] == Mark(")") { FromRight(r.(phase := AtRight), ts[1..], goal); assert ts[1..] == [] ==> ts == [ts[0]]; }
    }
  }

  lemma {:induction false} FromNumber(r: Reader, ts: seq<Tok>, goal: Reader)
    requires r.phase == AtPushComma2 && AllRead(ts)
    ensures Ends(r, ts, goal) <==>
            |ts| == 2 && ts[0].Number? && Small(ts[0].n) && ts[1] == Mark(")") &&
                goal == r.(align := ts[0].n, phase := AtRight)
  {
    if ts != [] {
      One(r, ts);
      if ts[0].Number? && Small(ts[0].n) { FromAlign(r.(align := ts[0].n, phase := AtAlign), ts[1..], goal); Cut(ts); }
    }
  }

  lemma {:induction false} Cut(ts: seq<Tok>)
    requires ts != []
    ensures ts == [ts[0]] + ts[1..] && |ts[1..]| == |ts| - 1
    ensures forall k :: 0 <= k < |ts| - 1 ==> ts[1..][k] == ts[k + 1]
  {
  }

  lemma {:induction false} FromPushComma(r: Reader, ts: seq<Tok>, goal: Reader)
    requires r.phase == AtPushComma && AllRead(ts) && r.id == None
    ensures Ends(r, ts, goal) <==>
            || (|ts| == 2 && ts[0].Number? && Small(ts[0].n) && ts[1] == Mark(")") &&
                goal == r.(align := ts[0].n, phase := AtRight))
            || (|ts| == 4 && ts[0].Word? && ts[1] == Mark(",") && ts[2].Number? && Small(ts[2].n) && ts[3] == Mark(")")
                && goal == r.(id := Some(ts[0].text), align := ts[2].n, phase := AtRight))
  {
    if ts != [] {
      One(r, ts);
      Cut(ts);
      if ts[0].Number? && Small(ts[0].n) {
        FromAlign(r.(align := ts[0].n, phase := AtAlign), ts[1..], goal);
      } else if ts[0].Word? && |ts| > 1 {
        var r1 := r.(id := Some(ts[0].text), phase := AtPushId);
        One(r1, ts[1..]);
        Cut(ts[1..]);
        if ts[1] == Mark(",") { FromNumber(r1.(phase := AtPushComma2), ts[1..][1..], goal); }
      }
    }
  }

  lemma {:induction false} FromPop(r: Reader, ts: seq<Tok>, goal: Reader)
    requires r.phase == AtPop && AllRead(ts) && r.id == None
    ensures Ends(r, ts, goal) <==>
            || (ts == [Mark(")")] && goal == r.(phase := AtRight))
            || (|ts| == 3 && ts[0] == Mark(",") && ts[1].Word? && ts[2] == Mark(")")
                && goal == r.(id := Some(ts[1].text), phase := AtRight))
  {
    if ts != [] {
      One(r, ts);
      Cut(ts);
      if ts[0] == Mark(")") {
        FromRight(r.(phase := AtRight), ts[1..], goal);
      } else if ts[0] == Mark(",") && |ts| > 1 {
        var r1 := r.(phase := AtPopComma);
        One(r1, ts[1..]);
        Cut(ts[1..]);
        if ts[1].Word? { FromAlign(r1.(id := Some(ts[1].text), phase := AtAlign), ts[1..][1..], goal); }
      }
    }
  }

  /** After `push`: the directives that the rest can spell. */
  lemma {:induction false} AfterPush(r: Reader, ts: seq<Tok>, n: nat, id: Option<Name>)
    requires r.phase == AtPush && r.kind == PushK && r.id == None && AllRead(ts)
    ensures Finish(Steps(r, ts)) == Accepted(Stack(PushC(n, id))) <==> IsPower(n) && ts == PushTail(n, id)
    ensures Steps(r, ts).kind == PushK
  {
    AllowedIff(n);
    KindKept(r, ts);
    var goal := Steps(r, ts);
    if ts != [] {
      One(r, ts);
      Cut(ts);
      if ts[0] == Mark(",") {
        var r1 := r.(phase := AtPushComma);
        FromPushComma(r1, ts[1..], goal);
        FromPushComma(r1, ts[1..], r1.(align := n, id := id, phase := AtRight));
      }
      match id
      case None =>
        assert ts == PushTail(n, id) <==>
               |ts| == 3 && ts[0] == Mark(",") && ts[1] == Number(n) && ts[2] == Mark(")");
      case Some(x) =>
        assert ts == PushTail(n, id) <==>
               |ts| == 5 && ts[0] == Mark(",") && ts[1] == Word(x) && ts[2] == Mark(",") && ts[3] == Number(n) &&
                   ts[4] == Mark(")");
    }
  }

  lemma {:induction false} AfterPop(r: Reader, ts: seq<Tok>, id: Option<Name>)
    requires r.phase == AtPop && r.kind == PopK && r.id == None && AllRead(ts)
    ensures Finish(Steps(r, ts)) == Accepted(Stack(PopC(id))) <==> ts == PopTail(id)
    ensures Steps(r, ts).kind == PopK
  {
    KindKept(r, ts);
    FromPop(r, ts, Steps(r, ts));
    FromPop(r, ts, r.(id := id, phase := AtRight));
    if id.Some? {
      assert ts == PopTail(id) <==> |ts| == 3 && ts[0] == Mark(",") && ts[1] == Word(id.value) && ts[2] == Mark(")");
    }
  }

  /** Once the kind is known it stays. */
  lemma {:induction false} KindKept(r: Reader, ts: seq<Tok>)
    requires r.kind != NoKind && r.phase != AtStart && r.phase != AtPack && r.phase != AtLeft
    ensures Steps(r, ts).kind == r.kind
    decreases |ts|
  {
    if ts != [] { KindKept(Step(r, ts[0]), ts[1..]); }
  }

  lemma {:induction false} AfterLeft(r: Reader, ts: seq<Tok>, d: Directive)
    requires r.phase == AtLeft && r.kind == PackK && r.id == None && AllRead(ts)
    ensures Finish(Steps(r, ts)) == Accepted(d) <==> Writable(d) && ts == Inside(d)
  {
    if ts == [] {
    } else {
      One(r, ts);
      Cut(ts);
      var r1 := Step(r, ts[0]);
      KindKept(r1, ts[1..]);
      match ts[0] {
        case Mark(s) => if s == ")" { FromRight(r1, ts[1..], Steps(r, ts)); }
        case Number(n) =>
          if Small(n) { FromAlign(r1, ts[1..], Steps(r, ts)); }
          if d.Bare? { AllowedIff(d.align); }
        case Word(s) =>
          if s == "push" {
            if d.Stack? && d.c.PushC? { AfterPush(r1, ts[1..], d.c.alignment, d.c.id); }
          } else if s == "pop" {
            if d.Stack? && d.c.PopC? { AfterPop(r1, ts[1..], d.c.id); }
          }
      }
      SameTail(ts, Inside(d));
    }
  }

  lemma {:induction false} SameTail(ts: seq<Tok>, us: seq<Tok>)
    requires ts != [] && us != []
    ensures ts == us <==> ts[0] == us[0] && ts[1..] == us[1..]
  {
    Cut(ts);
    Cut(us);
  }

  /** At the start of a line. */
  predicate Ready(r: Reader) { r.phase == AtStart && r.kind == NoKind && r.id == None }

  /** A line is taken as a directive exactly if that is how the directive is
      written, tokens that are passed over aside. */
  lemma {:induction false} AcceptedIff(r: Reader, ts: seq<Tok>, d: Directive)
    requires Ready(r)
    ensures Finish(Steps(r, ts)) == Accepted(d) <==> Writable(d) && Kept(ts) == Written(d)
  {
    KeptSteps(r, ts);
    FromStart(r, Kept(ts), d);
  }

  lemma {:induction false} FromStart(r: Reader, ks: seq<Tok>, d: Directive)
    requires Ready(r) && AllRead(ks)
    ensures Finish(Steps(r, ks)) == Accepted(d) <==> Writable(d) && ks == Written(d)
  {
    if ks != [] {
      One(r, ks);
      Cut(ks);
      SameTail(ks, Written(d));
      assert Written(d)[1..] == [Mark("(")] + Inside(d);
      var r1 := Step(r, ks[0]);
      if ks[0] != Word("pack") { FromBad(r1, ks[1..]); } else { AfterPack(r1, ks[1..], d); }
    }
  }

  lemma {:induction false} AfterPack(r: Reader, ts: seq<Tok>, d: Directive)
    requires r.phase == AtPack && r.kind == PackK && r.id == None && AllRead(ts)
    ensures Finish(Steps(r, ts)) == Accepted(d) <==> Writable(d) && ts == [Mark("(")] + Inside(d)
  {
    if ts != [] {
      One(r, ts);
      Cut(ts);
      SameTail(ts, [Mark("(")] + Inside(d));
      assert ([Mark("(")] + Inside(d))[1..] == Inside(d);
      if ts[0] == Mark("(") { AfterLeft(Step(r, ts[0]), ts[1..], d); } else { StaysPack(Step(r, ts[0]), ts[1..]); }
    }
  }

  lemma {:induction false} StaysPack(r: Reader, ts: seq<Tok>)
    requires r.phase == AtBad
    ensures Finish(Steps(r, ts)).Accepted? == false
  {
    FromBad(r, ts);
  }

  /** The routine aborts at the end of a line exactly if it passed over every token. */
  lemma {:induction false} AbortsIff(r: Reader, ts: seq<Tok>)
    requires Ready(r)
    ensures Finish(Steps(r, ts)) == Abort <==> Kept(ts) == []
  {
    KeptSteps(r, ts);
    if Kept(ts) != [] { NotUnknown(Step(r, Kept(ts)[0]), Kept(ts)[1..]); }
  }

  lemma {:induction false} NotUnknown(r: Reader, ts: seq<Tok>)
    requires r.kind != NoKind && r.phase != AtStart
    ensures Steps(r, ts).kind != NoKind
    decreases |ts|
  {
    if ts != [] { NotUnknown(Step(r, ts[0]), ts[1..]); }
  }

  // ----- a line of a directive -----

  /** What an accepted directive does to the entries and the alignment in force,
      and what it returns. */
  ghost predicate Effect(d: Directive, ok: bool, st: seq<Entry>, max: nat, st': seq<Entry>, max': nat)
    requires Counted(st) && Counted(st')
  {
    match d
    case Bare(n) => ok && st' == st && max' == 8 * n
    case Stack(PushC(n, id)) =>
      && ok == (n == 0 || IsPower(n)) && Pushes(st') == Meaning(Pushes(st), PushC(n, id))
      && max' == if ok && StartsEntry(st, n, id) then 8 * n else max
    case Stack(PopC(id)) =>
      && ok == (Pushes(st) != []) && Pushes(st') == Meaning(Pushes(st), PopC(id))
      && max' == if EndsEntry(st, id) then Maximum(Pushes(st')) else max
  }

  class Lines {
    var reader: Reader
    const packing: Packing

    constructor (packing: Packing)
      ensures this.packing == packing && Ready(reader)
    {
      reader, this.packing := Reader(AtStart, NoKind, 0, None), packing;
    }

    method Token(t: Tok)
      modifies this
      ensures reader == Step(old(reader), t)
    {
      reader := Step(reader, t);
    }

    /** The end of a line on which tokens were read. */
    method EndOfLine() returns (ok: bool)
      requires Counted(packing.stack) && reader.kind != NoKind
      modifies this, packing
      ensures Ready(reader) && Counted(packing.stack)
      ensures var (st, max) := (old(packing.stack), old(packing.maximumFieldAlignment));
              match old(Finish(reader))
              case Accepted(d) => Effect(d, ok, st, max, packing.stack, packing.maximumFieldAlignment)
              case _ => !ok && packing.stack == st && packing.maximumFieldAlignment == max
      ensures old(packing.Valid()) && (forall n :: old(Finish(reader)) != Accepted(Bare(n))) ==> packing.Valid()
    {
      ok := false;
      if reader.phase == AtRight {
        if reader.kind == PackK {
          packing.SetAlignment(reader.align);
          ok := true;
        } else if reader.kind == PushK {
          ok := packing.PushAlignment(reader.align, reader.id);
        } else if reader.kind == PopK {
          ok := packing.PopAlignment(reader.id);
        }
      }
      reader := reader.(phase := AtStart, kind := NoKind, id := None);
    }

    /** A whole line: it has the effect of the directive that it spells, and no
        effect if it spells none. */
    method ReadLine(ts: seq<Tok>) returns (ok: bool)
      requires Ready(reader) && Counted(packing.stack) && Kept(ts) != []
      modifies this, packing
      ensures Ready(reader) && Counted(packing.stack)
      ensures forall d :: Writable(d) && Kept(ts) == Written(d) ==>
                Effect(d, ok, old(packing.stack), old(packing.maximumFieldAlignment),
                       packing.stack, packing.maximumFieldAlignment)
      ensures (forall d :: Writable(d) ==> Kept(ts) != Written(d)) ==>
                !ok && packing.stack == old(packing.stack)
                && packing.maximumFieldAlignment == old(packing.maximumFieldAlignment)
    {
      ghost var r0 := reader;
      var i := 0;
      assert ts[0..] == ts;
      while i < |ts|
        invariant 0 <= i <= |ts| && Steps(reader, ts[i..]) == Steps(r0, ts)
        modifies this
      {
        assert ts[i..][0] == ts[i] && ts[i..][1..] == ts[i + 1..];
        Token(ts[i]);
        i := i + 1;
      }
      AbortsIff(r0, ts);
      forall d ensures Finish(reader) == Accepted(d) <==> Writable(d) && Kept(ts) == Written(d) {
        AcceptedIff(r0, ts, d);
      }
      ok := EndOfLine();
    }
  }
}
