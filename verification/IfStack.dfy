/** Detection of an ambiguous else with a stack of the if statements being read. */
module IfStack {
  import opened Options

  /** Statements as far as the detection can tell them apart; `LoopS` is a
      while, for or switch, or a label, in front of a statement. */
  datatype Stmt =
    | Simple
    | IfS(id: nat, body: Stmt, els: Option<Stmt>)
    | Braces(items: seq<Stmt>)
    | DoS(body: Stmt)
    | LoopS(body: Stmt)

  /** An if statement being read, and the value of the counter where it started. */
  datatype Elt = Elt(compstmtCount: int, id: nat, needsWarning: bool)

  /** The stack, innermost last; the counter of compound and do statements; the warnings given. */
  datatype State = State(stack: seq<Elt>, compstmtCount: int, warnings: seq<nat>)

  // ----- the actions -----

  function StartCond(s: State, id: nat): State {
    s.(stack := s.stack + [Elt(s.compstmtCount, id, false)])
  }

  function SetTop(st: seq<Elt>, e: Elt): seq<Elt>
    requires st != []
  {
    st[|st| - 1 := e]
  }

  function Top(st: seq<Elt>): Elt
    requires st != []
  {
    st[|st| - 1]
  }

  function Flag(st: seq<Elt>, flag: bool): seq<Elt> {
    if flag && st != [] then SetTop(st, Top(st).(needsWarning := true)) else st
  }

  function StartElse(s: State): State
    requires s.stack != []
  {
    var k := |s.stack| - 1;
    var e, outer := s.stack[k], s.stack[..k];
    var flag := outer != [] && e.compstmtCount == Top(outer).compstmtCount;
    s.(stack := Flag(outer, flag) + [e.(needsWarning := false, compstmtCount := e.compstmtCount - 1)])
  }

  function EndCond(s: State): State
    requires s.stack != []
  {
    var e := Top(s.stack);
    s.(stack := s.stack[..|s.stack| - 1], warnings := if e.needsWarning then s.warnings + [e.id] else s.warnings)
  }

  function Open(s: State): State { s.(compstmtCount := s.compstmtCount + 1) }

  /** Reading a statement. */
  function Read(s: State, x: Stmt): (r: State)
    ensures |r.stack| == |s.stack|
    decreases x, 0
  {
    match x
    case Simple => s
    case IfS(id, t, None) => EndCond(Read(StartCond(s, id), t))
    case IfS(id, t, Some(e)) => EndCond(Read(StartElse(Read(StartCond(s, id), t)), e))
    case Braces(xs) => ReadAll(Open(s), xs)
    case DoS(b) => Read(Open(s), b)
    case LoopS(b) => Read(s, b)
  }

  function ReadAll(s: State, xs: seq<Stmt>): (r: State)
    ensures |r.stack| == |s.stack|
    decreases xs, 1
  {
    if xs == [] then s else ReadAll(Read(s, xs[0]), xs[1..])
  }

  // ----- what it should warn about -----

  /** The statement is, but for loops and labels, an if that has an else. */
  predicate HasElse(x: Stmt) {
    match x
    case IfS(_, _, e) => e.Some?
    case LoopS(b) => HasElse(b)
    case _ => false
  }

  /** The if statements without an else whose then-branch has such an if, in
      the order in which they end. */
  function Ambiguous(x: Stmt): seq<nat>
    decreases x, 0
  {
    match x
    case Simple => []
    case IfS(id, t, None) => Ambiguous(t) + if HasElse(t) then [id] else []
    case IfS(_, t, Some(e)) => Ambiguous(t) + Ambiguous(e)
    case Braces(xs) => AmbiguousAll(xs)
    case DoS(b) => Ambiguous(b)
    case LoopS(b) => Ambiguous(b)
  }

  function AmbiguousAll(xs: seq<Stmt>): seq<nat>
    decreases xs, 1
  {
    if xs == [] then [] else Ambiguous(xs[0]) + AmbiguousAll(xs[1..])
  }

  /** An enclosing if started at or before the counter's present value. */
  predicate Behind(s: State) { s.stack != [] ==> Top(s.stack).compstmtCount <= s.compstmtCount }

  /** The enclosing if started at the counter's present value: nothing was opened since. */
  predicate Level(s: State) { s.stack != [] && Top(s.stack).compstmtCount == s.compstmtCount }

  /** Reading `x` warned about exactly the ambiguous ifs in it, and marked the
      enclosing if exactly if nothing was opened since it started and `x` has an else. */
  ghost predicate Warned(s: State, x: Stmt, r: State) {
    && r.warnings == s.warnings + Ambiguous(x)
    && r.stack == Flag(s.stack, Level(s) && HasElse(x))
    && r.compstmtCount >= s.compstmtCount
  }

  lemma {:induction false} ReadWarns(s: State, x: Stmt)
    requires Behind(s)
    ensures Warned(s, x, Read(s, x))
    decreases x, 0
  {
    match x
    case Simple =>
    case IfS(id, t, e) =>
      var s0 := StartCond(s, id);
      Pushed(s.stack, Top(s0.stack));
      ReadWarns(s0, t);
      var s1 := Read(s0, t);
      ThenRead(s, id, t, s1);
      if e.Some? {
        ElseStarted(s, id, t, s1);
        var s2 := StartElse(s1);
        ReadWarns(s2, e.value);
        ElseRead(s, id, t, e.value, s2, Read(s2, e.value));
      }
    case Braces(xs) => ReadAllWarns(Open(s), xs);
    case DoS(b) => ReadWarns(Open(s), b);
    case LoopS(b) => ReadWarns(s, b);
  }

  /** After the then-branch. */
  lemma {:induction false} ThenRead(s: State, id: nat, t: Stmt, s1: State)
    requires Behind(s) && Warned(StartCond(s, id), t, s1)
    ensures s1.stack == s.stack + [Elt(s.compstmtCount, id, HasElse(t))]
    ensures Warned(s, IfS(id, t, None), EndCond(s1))
  {
    Pushed(s.stack, Elt(s.compstmtCount, id, false));
    Pushed(s.stack, Elt(s.compstmtCount, id, HasElse(t)));
    assert HasElse(t) ==> s.warnings + Ambiguous(t) + [id] == s.warnings + (Ambiguous(t) + [id]);
  }

  lemma {:induction false} ElseStarted(s: State, id: nat, t: Stmt, s1: State)
    requires s1.stack == s.stack + [Elt(s.compstmtCount, id, HasElse(t))] && s1.compstmtCount >= s.compstmtCount
    ensures StartElse(s1).stack == Flag(s.stack, Level(s)) + [Elt(s.compstmtCount - 1, id, false)]
    ensures Behind(StartElse(s1)) && !Level(StartElse(s1))
  {
    Pushed(s.stack, Elt(s.compstmtCount, id, HasElse(t)));
    Pushed(Flag(s.stack, Level(s)), Elt(s.compstmtCount - 1, id, false));
  }

  /** After the else-branch, where nothing marks the if itself. */
  lemma {:induction false} ElseRead(s: State, id: nat, t: Stmt, y: Stmt, s2: State, s3: State)
    requires s2.stack == Flag(s.stack, Level(s)) + [Elt(s.compstmtCount - 1, id, false)] && !Level(s2)
    requires s2.warnings == s.warnings + Ambiguous(t) && s2.compstmtCount >= s.compstmtCount && Warned(s2, y, s3)
    ensures Warned(s, IfS(id, t, Some(y)), EndCond(s3))
  {
    Pushed(Flag(s.stack, Level(s)), Elt(s.compstmtCount - 1, id, false));
    assert s.warnings + Ambiguous(t) + Ambiguous(y) == s.warnings + (Ambiguous(t) + Ambiguous(y));
  }

  lemma {:induction false} Pushed(st: seq<Elt>, e: Elt)
    ensures var z := st + [e]; Top(z) == e && z[..|z| - 1] == st && Flag(z, true) == st + [e.(needsWarning := true)]
  {
  }

  lemma {:induction false} ReadAllWarns(s: State, xs: seq<Stmt>)
    requires Behind(s) && !Level(s)
    ensures var r := ReadAll(s, xs);
            r.warnings == s.warnings + AmbiguousAll(xs) && r.stack == s.stack && r.compstmtCount >= s.compstmtCount
    decreases xs, 1
  {
    if xs != [] {
      ReadWarns(s, xs[0]);
      ReadAllWarns(Read(s, xs[0]), xs[1..]);
    }
  }

  // ----- the routines -----

  class Reader {
    var stack: seq<Elt>
    var compstmtCount: int
    var warnings: seq<nat>

    ghost function Abs(): State
      reads this
    {
      State(stack, compstmtCount, warnings)
    }

    constructor ()
      ensures Abs() == State([], 0, [])
    {
      stack, compstmtCount, warnings := [], 0, [];
    }

    method ExpandStartCond(id: nat)
      modifies this
      ensures Abs() == StartCond(old(Abs()), id)
    {
      stack := stack + [Elt(compstmtCount, id, false)];
    }

    method ExpandStartElse()
      requires stack != []
      modifies this
      ensures Abs() == StartElse(old(Abs()))
    {
      var k := |stack|;
      ghost var outer, e := stack[..k - 1], stack[k - 1];
      if k > 1 && stack[k - 1].compstmtCount == stack[k - 2].compstmtCount {
        stack := stack[k - 2 := stack[k - 2].(needsWarning := true)];
        assert stack == Flag(outer, true) + [e];
      }
      stack := stack[k - 1 := stack[k - 1].(needsWarning := false)];
      stack := stack[k - 1 := stack[k - 1].(compstmtCount := stack[k - 1].compstmtCount - 1)];
      assert stack == stack[..k - 1] + [stack[k - 1]];
    }

    method ExpandEndCond()
      requires stack != []
      modifies this
      ensures Abs() == EndCond(old(Abs()))
    {
      var e := stack[|stack| - 1];
      stack := stack[..|stack| - 1];
      if e.needsWarning { warnings := warnings + [e.id]; }
    }

    /** A function body, read from an empty stack, draws a warning for each ambiguous if. */
    method ReadBody(x: Stmt)
      requires stack == []
      modifies this
      ensures stack == [] && warnings == old(warnings) + Ambiguous(x)
    {
      ReadWarns(Abs(), x);
      ReadStmt(x);
    }

    method ReadStmt(x: Stmt)
      modifies this
      ensures Abs() == Read(old(Abs()), x)
      decreases x, 0
    {
      match x
      case Simple =>
      case IfS(id, t, e) =>
        ExpandStartCond(id);
        ReadStmt(t);
        if e.Some? {
          ExpandStartElse();
          ReadStmt(e.value);
        }
        ExpandEndCond();
      case Braces(xs) =>
        compstmtCount := compstmtCount + 1;
        ghost var s := Abs();
        var i := 0;
        assert xs[0..] == xs;
        while i < |xs|
          invariant 0 <= i <= |xs| && ReadAll(Abs(), xs[i..]) == ReadAll(s, xs)
        {
          assert xs[i..][0] == xs[i] && xs[i..][1..] == xs[i + 1..];
          ReadStmt(xs[i]);
          i := i + 1;
        }
      case DoS(b) =>
        compstmtCount := compstmtCount + 1;
        ReadStmt(b);
      case LoopS(b) => ReadStmt(b);
    }
  }
}
