/** #pragma pack: the run-length stack of alignments, and the reading of a directive. */
module PackStack {
  import opened Arithmetic
  import opened Options

  type Name = string

  /** An entry stands for `pushes` pushes of one alignment; only the first can have had a name. */
  datatype Entry = Entry(alignment: nat, pushes: nat, id: Option<Name>)

  /** One push. */
  datatype Push = Push(alignment: nat, id: Option<Name>)

  datatype Command = PushC(alignment: nat, id: Option<Name>) | PopC(id: Option<Name>)

  /** What push_alignment takes. */
  predicate Allowed(a: nat) { a in {0, 1, 2, 4, 8, 16} }

  /** A power of two of at most 16. */
  predicate IsPower(n: int) { exists k: nat :: k <= 4 && n == Pow2(k) }

  /** Alignments are powers of two up to 16, and 0 for none. */
  lemma AllowedIff(a: nat)
    ensures Allowed(a) <==> a == 0 || IsPower(a)
    ensures IsPower(a) <==> a in {1, 2, 4, 8, 16}
  {
    assert Pow2(0) == 1 && Pow2(1) == 2 && Pow2(2) == 4 && Pow2(3) == 8 && Pow2(4) == 16;
  }

  /** Run-length entries, top first. */
  ghost predicate Counted(st: seq<Entry>) { forall e <- st :: e.pushes > 0 }

  // ----- the stack of pushes that the entries stand for, top first -----

  function Unrolled(e: Entry): (r: seq<Push>)
    requires e.pushes > 0
    ensures |r| == e.pushes && r[|r| - 1] == Push(e.alignment, e.id)
    ensures forall i :: 0 <= i < |r| - 1 ==> r[i] == Push(e.alignment, None)
  {
    seq(e.pushes - 1, _ => Push(e.alignment, None)) + [Push(e.alignment, e.id)]
  }

  function Pushes(st: seq<Entry>): seq<Push>
    requires Counted(st)
  {
    if st == [] then [] else Unrolled(st[0]) + Pushes(st[1..])
  }

  /** Drop pushes through the topmost one with the name; just one if there is none. */
  function DropThrough(ps: seq<Push>, id: Name): Option<seq<Push>> {
    if ps == [] then None else if ps[0].id == Some(id) then Some(ps[1..]) else DropThrough(ps[1..], id)
  }

  /** What a directive means for a plain stack. */
  function Meaning(ps: seq<Push>, c: Command): seq<Push> {
    match c
    case PushC(a, id) => if a == 0 || IsPower(a) then [Push(a, id)] + ps else ps
    case PopC(None) => if ps == [] then ps else ps[1..]
    case PopC(Some(id)) =>
      if ps == [] then ps else if DropThrough(ps, id).Some? then DropThrough(ps, id).value else ps[1..]
  }

  function Meanings(ps: seq<Push>, cs: seq<Command>): seq<Push>
    decreases |cs|
  {
    if cs == [] then ps else Meanings(Meaning(ps, cs[0]), cs[1..])
  }

  /** The bits of the alignment in force. */
  function Maximum(ps: seq<Push>): nat { if ps == [] then 0 else 8 * ps[0].alignment }

  // ----- what the routines do to the entries -----

  /** A pop that ends an entry. */
  predicate EndsEntry(st: seq<Entry>, id: Option<Name>) {
    st != [] && (st[0].pushes == 1 || (id.Some? && StripTo(st, id.value).Some?))
  }

  function PushEntry(st: seq<Entry>, a: nat, id: Option<Name>): seq<Entry> {
    if !Allowed(a) then st
    else if StartsEntry(st, a, id) then [Entry(a, 1, id)] + st
    else [st[0].(pushes := st[0].pushes + 1)] + st[1..]
  }

  function PopOne(st: seq<Entry>): seq<Entry>
    requires st != [] && st[0].pushes > 0
  {
    if st[0].pushes == 1 then st[1..] else [st[0].(pushes := st[0].pushes - 1)] + st[1..]
  }

  /** Strip away everything above the entry with the name, and its own later pushes. */
  function StripTo(st: seq<Entry>, id: Name): Option<seq<Entry>> {
    if st == [] then None
    else if st[0].id == Some(id) then Some([st[0].(pushes := 1)] + st[1..])
    else StripTo(st[1..], id)
  }

  function PopEntry(st: seq<Entry>, id: Option<Name>): seq<Entry>
    requires Counted(st)
  {
    if st == [] then st
    else if id.Some? && StripTo(st, id.value).Some? then
      StripKeeps(st, id.value);
      PopOne(StripTo(st, id.value).value)
    else PopOne(st)
  }

  lemma {:induction false} StripKeeps(st: seq<Entry>, id: Name)
    requires Counted(st)
    ensures StripTo(st, id).Some? ==>
              var r := StripTo(st, id).value; r != [] && Counted(r) && r[0].pushes == 1
  {
    if st != [] { StripKeeps(st[1..], id); }
  }

  // ----- they represent the plain stack -----

  lemma {:induction false} PushRepresents(st: seq<Entry>, a: nat, id: Option<Name>)
    requires Counted(st)
    ensures Counted(PushEntry(st, a, id)) && Pushes(PushEntry(st, a, id)) == Meaning(Pushes(st), PushC(a, id))
  {
    var r := PushEntry(st, a, id);
    AllowedIff(a);
    if Allowed(a) {
      if st == [] || st[0].alignment != a || id.Some? {
        assert r[1..] == st && Unrolled(r[0]) == [Push(a, id)];
      } else {
        UnrolledMore(st[0]);
        assert r[1..] == st[1..];
        Prepend(Push(a, None), Unrolled(st[0]), Pushes(st[1..]));
      }
    }
  }

  lemma {:induction false} UnrolledMore(e: Entry)
    requires e.pushes > 0
    ensures Unrolled(e.(pushes := e.pushes + 1)) == [Push(e.alignment, None)] + Unrolled(e)
  {
  }

  lemma {:induction false} Prepend(x: Push, a: seq<Push>, b: seq<Push>)
    ensures [x] + a + b == [x] + (a + b) && ([x] + a + b)[1..] == a + b
  {
  }

  lemma {:induction false} PopRepresents(st: seq<Entry>)
    requires Counted(st) && st != []
    ensures Counted(PopOne(st)) && Pushes(st) != [] && Pushes(PopOne(st)) == Pushes(st)[1..]
  {
    var r := PopOne(st);
    if st[0].pushes > 1 {
      UnrolledMore(r[0]);
      assert r[1..] == st[1..] && r[0].(pushes := r[0].pushes + 1) == st[0];
      Prepend(Push(st[0].alignment, None), Unrolled(r[0]), Pushes(st[1..]));
    }
  }

  lemma {:induction false} DropUnrolled(e: Entry, ps: seq<Push>, id: Name)
    requires e.pushes > 0
    ensures DropThrough(Unrolled(e) + ps, id) == if e.id == Some(id) then Some(ps) else DropThrough(ps, id)
    decreases e.pushes
  {
    var s := Unrolled(e) + ps;
    if e.pushes > 1 {
      var e' := e.(pushes := e.pushes - 1);
      assert Unrolled(e)[1..] == Unrolled(e');
      assert s[1..] == Unrolled(e') + ps;
      DropUnrolled(e', ps, id);
    } else {
      assert s[1..] == ps;
    }
  }

  /** Popping through a name drops the pushes through the topmost with that name. */
  lemma {:induction false} StripRepresents(st: seq<Entry>, id: Name)
    requires Counted(st)
    ensures StripTo(st, id).Some? <==> DropThrough(Pushes(st), id).Some?
    ensures StripTo(st, id).Some? ==>
              var r := StripTo(st, id).value;
              && r != [] && Counted(r) && r[0].pushes == 1
              && Pushes(r[1..]) == DropThrough(Pushes(st), id).value
  {
    if st != [] {
      DropUnrolled(st[0], Pushes(st[1..]), id);
      StripRepresents(st[1..], id);
    }
  }

  lemma {:induction false} PopEntryRepresents(st: seq<Entry>, id: Option<Name>)
    requires Counted(st)
    ensures Counted(PopEntry(st, id)) && Pushes(PopEntry(st, id)) == Meaning(Pushes(st), PopC(id))
  {
    if st != [] {
      PopRepresents(st);
      if id.Some? {
        StripRepresents(st, id.value);
      }
    }
  }

  // ----- the routines -----

  class Packing {
    var stack: seq<Entry>
    var maximumFieldAlignment: nat

    /** The alignment in force is that of the top push. */
    ghost predicate Valid()
      reads this
    {
      Counted(stack) && maximumFieldAlignment == Maximum(Pushes(stack))
    }

    constructor ()
      ensures Valid() && Pushes(stack) == []
    {
      stack, maximumFieldAlignment := [], 0;
    }

    /** A push that only lengthens the top entry leaves the alignment in force alone. */
    method PushAlignment(alignment: nat, id: Option<Name>) returns (ok: bool)
      requires Counted(stack)
      modifies this
      ensures Counted(stack) && ok == (alignment == 0 || IsPower(alignment))
      ensures Pushes(stack) == Meaning(old(Pushes(stack)), PushC(alignment, id))
      ensures maximumFieldAlignment ==
              if ok && StartsEntry(old(stack), alignment, id) then 8 * alignment else old(maximumFieldAlignment)
      ensures old(Valid()) ==> Valid()
    {
      PushRepresents(stack, alignment, id);
      AllowedIff(alignment);
      TopAlignment(stack);
      if !Allowed(alignment) { return false; }
      if stack == [] || stack[0].alignment != alignment || id.Some? {
        stack := [Entry(alignment, 1, id)] + stack;
        maximumFieldAlignment := alignment * 8;
      } else {
        stack := [stack[0].(pushes := stack[0].pushes + 1)] + stack[1..];
      }
      return true;
    }

    method PopAlignment(id: Option<Name>) returns (ok: bool)
      requires Counted(stack)
      modifies this
      ensures Counted(stack) && ok == (old(Pushes(stack)) != [])
      ensures Pushes(stack) == Meaning(old(Pushes(stack)), PopC(id))
      ensures maximumFieldAlignment == if EndsEntry(old(stack), id) then Maximum(Pushes(stack))
          else old(maximumFieldAlignment)
      ensures old(Valid()) ==> Valid()
    {
      PopEntryRepresents(stack, id);
      if stack == [] { return false; }
      PopRepresents(stack);
      TopAlignment(stack);
      ghost var was := stack;
      if id.Some? {
        StripKeeps(stack, id.value);
        var k := 0;
        assert stack[0..] == stack;
        while k < |stack| && stack[k].id != id
          invariant 0 <= k <= |stack| && StripTo(stack[k..], id.value) == StripTo(stack, id.value)
        {
          assert stack[k..][1..] == stack[k + 1..];
          k := k + 1;
        }
        if k < |stack| {
          assert stack[k..][1..] == stack[k + 1..];
          stack := [stack[k].(pushes := 1)] + stack[k + 1..];
        }
      }
      assert PopOne(stack) == PopEntry(was, id);
      if stack[0].pushes == 1 {
        stack := stack[1..];
        TopAlignment(stack);
        maximumFieldAlignment := if stack == [] then 0 else stack[0].alignment * 8;
      } else {
        stack := [stack[0].(pushes := stack[0].pushes - 1)] + stack[1..];
        TopAlignment(stack);
      }
      return true;
    }

    /** A bare pack changes the alignment in force and nothing else. */
    method SetAlignment(alignment: nat)
      modifies this`maximumFieldAlignment
      ensures maximumFieldAlignment == 8 * alignment
    {
      maximumFieldAlignment := alignment * 8;
    }
  }

  /** A push that makes an entry of its own. */
  predicate StartsEntry(st: seq<Entry>, a: nat, id: Option<Name>) {
    st == [] || st[0].alignment != a || id.Some?
  }

  lemma {:induction false} TopAlignment(st: seq<Entry>)
    requires Counted(st)
    ensures Maximum(Pushes(st)) == if st == [] then 0 else 8 * st[0].alignment
  {
    if st != [] { assert Unrolled(st[0])[0].alignment == st[0].alignment; }
  }

  /** In every run of directives the entries stand for the plain stack. */
  method Run(p: Packing, cs: seq<Command>)
    requires p.Valid()
    modifies p
    ensures p.Valid() && Pushes(p.stack) == Meanings(old(Pushes(p.stack)), cs)
  {
    var i := 0;
    ghost var ps := Pushes(p.stack);
    assert cs[0..] == cs;
    while i < |cs|
      invariant 0 <= i <= |cs| && p.Valid()
      invariant Meanings(Pushes(p.stack), cs[i..]) == Meanings(ps, cs)
    {
      assert cs[i..][0] == cs[i] && cs[i..][1..] == cs[i + 1..];
      match cs[i] {
        case PushC(a, id) => var ok := p.PushAlignment(a, id);
        case PopC(id) => var ok := p.PopAlignment(id);
      }
      i := i + 1;
    }
  }
}
