/** Where caller-save keeps registers: setup_save_areas gives groups of
    consecutive registers one block of stack words, and every register in a
    group its own word of that block. */
module SaveAreas {

  /** `words` consecutive hard registers, saved or restored by one insn. */
  datatype Group = Group(first: nat, words: nat)

  /** What the target says: how many hard registers there are, how many words a
      move can carry, and for which groups a save mode exists. */
  datatype Target = Target(nregs: nat, moveMaxWords: nat, modes: set<Group>)

  /** A mode covers registers that exist. */
  ghost predicate GoodTarget(t: Target) {
    forall g <- t.modes :: 1 <= g.words <= t.moveMaxWords && g.first + g.words <= t.nregs
  }

  /** regno_save_mem: the stack word where a group is saved. */
  type SaveMem = map<Group, nat>

  /** `r` is one of the group's registers. */
  predicate In(r: nat, g: Group) { g.first <= r < g.first + g.words }

  predicate HasSlot(mem: SaveMem, r: nat) { Group(r, 1) in mem }

  function Slot(mem: SaveMem, r: nat): nat
    requires HasSlot(mem, r)
  {
    mem[Group(r, 1)]
  }

  /** The slot of a group is the concatenation of its members' slots. */
  ghost predicate Concatenates(mem: SaveMem, g: Group)
    requires g in mem
  {
    forall r: nat :: In(r, g) ==> HasSlot(mem, r) && Slot(mem, r) == mem[g] + r - g.first
  }

  /** Different registers have different words. */
  ghost predicate SlotsDistinct(mem: SaveMem) {
    forall r: nat, q: nat :: HasSlot(mem, r) && HasSlot(mem, q) && r != q ==> Slot(mem, r) != Slot(mem, q)
  }

  ghost predicate InTarget(t: Target, g: Group) {
    1 <= g.words <= t.moveMaxWords && g.first + g.words <= t.nregs
  }

  /** The layout that saving and restoring rely on. */
  ghost predicate Layout(t: Target, mem: SaveMem) {
    SlotsDistinct(mem) && forall g <- mem :: Concatenates(mem, g) && InTarget(t, g)
  }

  /** Slots lie below the next free stack word. */
  ghost predicate Allocated(mem: SaveMem, top: nat) {
    forall g <- mem :: mem[g] + g.words <= top
  }

  /** The group at `i` has the words from `top` on, and each member its own. */
  ghost predicate IsAssigned(m: SaveMem, mem: SaveMem, g: Group, top: nat) {
    && (forall h :: h in m <==> h in mem || h == g || (h.words == 1 && In(h.first, g)))
    && (forall h <- m :: m[h] == if h == g then top
                                 else if h.words == 1 && In(h.first, g) then top + h.first - g.first
                                 else mem[h])
  }

  lemma AssignedLayout(t: Target, m: SaveMem, mem: SaveMem, g: Group, top: nat)
    requires Layout(t, mem) && Allocated(mem, top) && InTarget(t, g) && IsAssigned(m, mem, g, top)
    requires forall r: nat :: In(r, g) ==> !HasSlot(mem, r)
    ensures Layout(t, m) && Allocated(m, top + g.words)
    ensures forall r: nat :: HasSlot(m, r) <==> HasSlot(mem, r) || In(r, g)
  {
    forall r: nat ensures HasSlot(m, r) <==> HasSlot(mem, r) || In(r, g) {
    }
    forall h | h in m ensures Concatenates(m, h) && InTarget(t, h) {
      if h in mem && h != g && !(h.words == 1 && In(h.first, g)) {
        assert Concatenates(mem, h);
      }
    }
    forall r: nat, q: nat | HasSlot(m, r) && HasSlot(m, q) && r != q ensures Slot(m, r) != Slot(m, q) {
      assert HasSlot(mem, r) ==> Slot(mem, r) + 1 <= top;
      assert HasSlot(mem, q) ==> Slot(mem, q) + 1 <= top;
    }
  }

  // ----- which groups get a block -----

  /** The registers of some groups. */
  ghost predicate Holds(gs: seq<Group>, r: nat) { exists g <- gs :: In(r, g) }

  /** A group with a mode, all of whose registers are used and none held yet. */
  ghost predicate Free(t: Target, used: set<nat>, gs: seq<Group>, g: Group) {
    g in t.modes && forall r: nat :: In(r, g) ==> r in used && !Holds(gs, r)
  }

  /** The number of words of the widest free group at `r`, of at most `j` words. */
  ghost function WidestFree(t: Target, used: set<nat>, gs: seq<Group>, r: nat, j: nat): (n: nat)
    ensures n <= j && (n > 0 ==> Free(t, used, gs, Group(r, n)))
    ensures forall k :: n < k <= j ==> !Free(t, used, gs, Group(r, k))
  {
    if j == 0 then 0 else if Free(t, used, gs, Group(r, j)) then j else WidestFree(t, used, gs, r, j - 1)
  }

  /** The groups that the registers below `i` get, in order. */
  ghost function Plan(t: Target, used: set<nat>, i: nat): seq<Group> {
    if i == 0 then []
    else
      var gs := Plan(t, used, i - 1);
      var n := WidestFree(t, used, gs, i - 1, t.moveMaxWords);
      if Holds(gs, i - 1) || n == 0 then gs else gs + [Group(i - 1, n)]
  }

  /** The map has the groups and the single words of their members, and no more. */
  ghost predicate HasGroups(mem: SaveMem, gs: seq<Group>) {
    forall h :: h in mem <==> h in gs || (h.words == 1 && Holds(gs, h.first))
  }

  /** A register has a word exactly if one of the groups holds it. */
  lemma SlotsOfGroups(mem: SaveMem, gs: seq<Group>)
    requires HasGroups(mem, gs)
    ensures forall r: nat :: HasSlot(mem, r) <==> Holds(gs, r)
  {
    forall r: nat ensures HasSlot(mem, r) <==> Holds(gs, r) {
      assert Group(r, 1) in gs ==> In(r, Group(r, 1));
    }
  }

  /** One more group and the words of its members. */
  lemma OneMoreGroup(m: SaveMem, mem: SaveMem, gs: seq<Group>, g: Group)
    requires HasGroups(mem, gs)
    requires forall h :: h in m <==> h in mem || h == g || (h.words == 1 && In(h.first, g))
    ensures HasGroups(m, gs + [g])
  {
    forall r: nat ensures Holds(gs + [g], r) <==> Holds(gs, r) || In(r, g) {
      if In(r, g) { assert g in gs + [g]; }
      if Holds(gs, r) {
        var h :| h in gs && In(r, h);
        assert h in gs + [g];
      }
    }
  }

  /** The widths above `j` have been tried at register `i`: either it has its
      word and the groups are those up to it, or no width tried was free. */
  ghost predicate Searching(t: Target, used: set<nat>, mem: SaveMem, i: nat, j: nat) {
    if HasSlot(mem, i) then HasGroups(mem, Plan(t, used, i + 1))
    else
      var gs := Plan(t, used, i);
      HasGroups(mem, gs) && WidestFree(t, used, gs, i, t.moveMaxWords) == WidestFree(t, used, gs, i, j)
  }

  lemma SearchBegins(t: Target, used: set<nat>, mem: SaveMem, i: nat)
    requires HasGroups(mem, Plan(t, used, i))
    ensures Searching(t, used, mem, i, t.moveMaxWords)
  {
    SlotsOfGroups(mem, Plan(t, used, i));
  }

  lemma SearchEnds(t: Target, used: set<nat>, mem: SaveMem, i: nat)
    requires Searching(t, used, mem, i, 0)
    ensures HasGroups(mem, Plan(t, used, i + 1))
  {
  }

  /** In the end the used registers with a mode for one word have their words,
      and only used registers have one. */
  lemma PlannedSlots(t: Target, used: set<nat>, mem: SaveMem)
    requires GoodTarget(t) && HasGroups(mem, Plan(t, used, t.nregs))
    ensures forall r: nat :: r in used && Group(r, 1) in t.modes ==> HasSlot(mem, r)
    ensures forall r: nat :: HasSlot(mem, r) ==> r in used
  {
    SlotsOfGroups(mem, Plan(t, used, t.nregs));
    PlanIsApart(t, used, t.nregs);
    forall r: nat | r in used && Group(r, 1) in t.modes ensures HasSlot(mem, r) {
      EveryModeHeld(t, used, r);
    }
  }

  /** A used register with a mode for one word is held in the end. */
  lemma EveryModeHeld(t: Target, used: set<nat>, r: nat)
    requires GoodTarget(t) && r in used && Group(r, 1) in t.modes
    ensures Holds(Plan(t, used, t.nregs), r)
  {
    PlanIsWidest(t, used, Group(r, 1));
  }

  /** Groups are only added. */
  lemma {:induction false} PlanGrows(t: Target, used: set<nat>, i: nat, k: nat)
    requires i <= k
    ensures Plan(t, used, i) <= Plan(t, used, k)
  {
    if i < k { PlanGrows(t, used, i, k - 1); }
  }

  ghost predicate Share(g: Group, h: Group) { exists r: nat :: In(r, g) && In(r, h) }

  /** No mode group of used registers is wider than the group at its first
      register, unless a group that starts lower has one of its registers. */
  lemma {:induction false} PlanIsWidest(t: Target, used: set<nat>, g: Group)
    requires GoodTarget(t) && g in t.modes && forall r: nat :: In(r, g) ==> r in used
    ensures (exists h <- Plan(t, used, t.nregs) :: h.first < g.first && Share(g, h))
            || exists h <- Plan(t, used, t.nregs) :: h.first == g.first && h.words >= g.words
  {
    var gs, all := Plan(t, used, g.first), Plan(t, used, t.nregs);
    if Free(t, used, gs, g) {
      var n := FreeIsTaken(t, used, gs, g);
      PlanGrows(t, used, g.first + 1, t.nregs);
      assert Group(g.first, n) in Plan(t, used, g.first + 1);
    } else {
      var h := HeldAlready(t, used, gs, g);
      PlanGrows(t, used, g.first, t.nregs);
      PlanBelow(t, used, g.first);
      assert h in all;
    }
  }

  lemma HeldAlready(t: Target, used: set<nat>, gs: seq<Group>, g: Group) returns (h: Group)
    requires g in t.modes && !Free(t, used, gs, g) && forall r: nat :: In(r, g) ==> r in used
    ensures h in gs && Share(g, h)
  {
    var r: nat :| In(r, g) && Holds(gs, r);
    h :| h in gs && In(r, h);
  }

  /** A group that is free when its first register's turn comes gives it a group as wide. */
  lemma FreeIsTaken(t: Target, used: set<nat>, gs: seq<Group>, g: Group) returns (n: nat)
    requires GoodTarget(t) && gs == Plan(t, used, g.first) && Free(t, used, gs, g)
    ensures n >= g.words && Plan(t, used, g.first + 1) == gs + [Group(g.first, n)]
  {
    n := WidestFree(t, used, gs, g.first, t.moveMaxWords);
    assert g == Group(g.first, g.words) && In(g.first, g);
  }

  lemma {:induction false} PlanBelow(t: Target, used: set<nat>, i: nat)
    ensures forall g <- Plan(t, used, i) :: g.first < i && g in t.modes
  {
    if i > 0 { PlanBelow(t, used, i - 1); }
  }

  ghost predicate NoneShared(gs: seq<Group>) { forall a, b :: 0 <= a < b < |gs| ==> !Share(gs[a], gs[b]) }

  /** The groups of a plan have modes, hold only used registers, and share none. */
  lemma {:induction false} PlanIsApart(t: Target, used: set<nat>, i: nat)
    ensures (forall g <- Plan(t, used, i), r: nat :: In(r, g) ==> r in used) && NoneShared(Plan(t, used, i))
  {
    if i > 0 {
      PlanIsApart(t, used, i - 1);
      var gs, next := Plan(t, used, i - 1), Plan(t, used, i);
      if next != gs { OneMoreApart(t, used, gs, Group(i - 1, WidestFree(t, used, gs, i - 1, t.moveMaxWords))); }
    }
  }

  lemma OneMoreApart(t: Target, used: set<nat>, gs: seq<Group>, g: Group)
    requires Free(t, used, gs, g) && NoneShared(gs)
    ensures NoneShared(gs + [g])
  {
    var next := gs + [g];
    forall a, b | 0 <= a < b < |next| ensures !Share(next[a], next[b]) {
      assert next[a] == gs[a];
      if b == |gs| {
        assert forall r: nat :: In(r, gs[a]) ==> Holds(gs, r);
      } else {
        assert next[b] == gs[b];
      }
    }
  }

  /** The save areas of one function. */
  class Areas {
    const t: Target
    var mem: SaveMem
    var top: nat          // next free stack word

    ghost predicate Valid()
      reads this
    {
      GoodTarget(t) && Layout(t, mem) && Allocated(mem, top)
    }

    /** init_save_areas: nothing allocated yet. */
    constructor (t: Target, top: nat)
      requires GoodTarget(t)
      ensures Valid() && mem == map[] && this.t == t
    {
      this.t, mem, this.top := t, map[], top;
    }

    /** No register of the group has a slot yet and all of them are used. */
    method Wanted(used: set<nat>, g: Group) returns (ok: bool)
      ensures ok <==> forall r: nat :: In(r, g) ==> !HasSlot(mem, r) && r in used
    {
      ok := true;
      var k := 0;
      while k < g.words && ok
        invariant 0 <= k <= g.words
        invariant ok <==> forall r: nat :: g.first <= r < g.first + k ==> !HasSlot(mem, r)
      {
        if HasSlot(mem, g.first + k) { ok := false; }
        k := k + 1;
      }
      if ok {
        k := 0;
        while k < g.words && ok
          invariant 0 <= k <= g.words
          invariant ok <==> forall r: nat :: g.first <= r < g.first + k ==> r in used
        {
          if g.first + k !in used { ok := false; }
          k := k + 1;
        }
      }
    }

    /** Allocate the group and set up the single word areas just in case. */
    method Assign(g: Group)
      requires Valid() && InTarget(t, g) && forall r: nat :: In(r, g) ==> !HasSlot(mem, r)
      modifies this
      ensures Valid()
      ensures forall h :: h in mem <==> h in old(mem) || h == g || (h.words == 1 && In(h.first, g))
    {
      var block := top;
      top := top + g.words;
      mem := mem[g := block];
      var k := 0;
      while k < g.words
        invariant 0 <= k <= g.words && top == block + g.words
        invariant forall h ::
                    h in mem <==> h in old(mem) || h == g || (h.words == 1 && g.first <= h.first < g.first + k)
        invariant forall h <- mem :: mem[h] == if h == g then block
                    else if h.words == 1 && g.first <= h.first < g.first + k then block + h.first - g.first
                    else old(mem)[h]
      {
        mem := mem[Group(g.first + k, 1) := block + k];
        k := k + 1;
      }
      AssignedLayout(t, mem, old(mem), g, block);
    }

    /** setup_save_areas: each register in turn gets the widest group that is
        still free, unless an earlier group holds it.  So every used register that
        has a save mode gets exactly one word, and no other register does. */
    method Setup(used: set<nat>)
      requires Valid() && mem == map[]
      modifies this
      ensures Valid() && HasGroups(mem, Plan(t, used, t.nregs))
      ensures forall r: nat :: r in used && Group(r, 1) in t.modes ==> HasSlot(mem, r)
      ensures forall r: nat :: HasSlot(mem, r) ==> r in used
    {
      var i := 0;
      while i < t.nregs
        invariant 0 <= i <= t.nregs && Valid() && HasGroups(mem, Plan(t, used, i))
      {
        SearchBegins(t, used, mem, i);
        var j := t.moveMaxWords;
        while j > 0
          invariant 0 <= j <= t.moveMaxWords && Valid() && Searching(t, used, mem, i, j)
        {
          Try(used, i, j);
          j := j - 1;
        }
        SearchEnds(t, used, mem, i);
        i := i + 1;
      }
      PlannedSlots(t, used, mem);
    }

    /** One round of the search: `j` words at register `i`. */
    method Try(used: set<nat>, i: nat, j: nat)
      requires Valid() && 0 < j <= t.moveMaxWords && Searching(t, used, mem, i, j)
      modifies this
      ensures Valid() && Searching(t, used, mem, i, j - 1)
    {
      ghost var gs := Plan(t, used, i);
      var g := Group(i, j);
      if HasSlot(mem, i) { return; }
      SlotsOfGroups(mem, gs);
      if g in t.modes {
        var ok := Wanted(used, g);
        if ok {
          Assign(g);
          assert In(i, g);
          OneMoreGroup(mem, old(mem), gs, g);
        }
      }
    }
  }
}
