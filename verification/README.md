# Verified models of algorithms in GCC 2.95.2

This project models self-contained algorithms of GCC 2.95.2 in Dafny and proves
what they are for. `dafny verify dfyconfig.toml` checks all of it.

- **Alias queries** (`AliasRtl`, `Alias`, `BaseValues`, `AliasSets`). Addresses are
  symbolic sums over registers, objects and constants; an environment gives every
  register a formal sum of objects plus an offset. `canon_rtx`, `plus_constant`,
  `rtx_equal_for_memref_p` and `memrefs_conflict_p` are functions over the tables of
  known values and invariants. The main theorem is that an answer of "no conflict",
  reached without a lossy division, is right in every environment the tables describe:
  no byte is accessed by both references, auto-increments included. On constant offsets
  the answer is exact. The pointer-jumping loop of `init_alias_analysis` and the table
  of alias-set children are separate modules.
- **Caller-save** (`SaveAreas`, `CallerSave`, `CallerSaveExact`, `CallerSavePass`). A
  small machine in which a call ruins registers, the layout of save slots, the rewriting
  of blocks, the exact condition under which every insn of the rewritten code reads what
  it read before, and the pass that walks the insn chain and inserts saves and restores.
- **Sparse bitmaps** (`BitmapValues`, `Bitmap`, `BitmapIterate`, `BitmapRun`). Doubly
  linked elements with a cursor and a shared free list, mutated in place, refine sets
  of naturals through any run of operations on many bitmaps; the iteration macros visit
  exactly the bits they should, in order.
- **The C front end** (`ShortenCompare`, `Declarator`, `DeclaratorRoundTrip`, `AuxInfo`,
  `Scope`, `ScopeRun`, `BindingLevels`, `Literal`, `PackStack`, `PackPragma`, `IfStack`).
  Narrowing of comparisons, writing and reading declarators, binding levels and the tree
  of BLOCKs, integer constants, `#pragma pack`, and the ambiguous-else warning.

Pure queries are functions with lemmas. State that the source updates in place is a
class whose methods are proved against functions of the old state, and the properties
are lemmas about those functions.

Six statements turn out to hold only under a condition, which is proved to be exact:

- Caller-save looks only at patterns for references, so a register saved at one call may
  still be in the save area when another call takes it as an argument. It also never
  saves the argument registers of a call, nor fixed ones, even if they stay live. With
  correct liveness, where calls ruin what they may, a block keeps every read and every
  live-out register on every machine exactly if no call finds one of its argument
  registers in the save area, and none ruins an argument or fixed register that is needed
  behind it (`CallerSaveExact.BlockSimulatesIff`); the same for a path of blocks and what
  the path needs (`CallerSaveExact.PathSimulatesIff`).
- `memrefs_conflict_p` divides sizes and offset by a common factor with truncation. For
  positive sizes its denials about scaled pairs are all right exactly if the factor
  divides all three, or is negative or greater than a size, when nothing is denied
  (`Alias.ScaledPairsSoundIff`).
- A subset recorded late is missing from the children of earlier ancestors. Recording
  keeps the children tables closed exactly if those ancestors hold everything the
  superset gains (`AliasSets.RecordKeepsClosedIff`), and a whole history leaves closed
  tables exactly if every descendant can be reached through pairs each of which was
  recorded before the one above it (`AliasSets.HistoryClosedIff`).
- `shorten_compare` takes an operand that is widened twice, the first time to a type of
  the other signedness, as if it were widened once. So `(unsigned) c == 4294967295LL`
  with a negative `signed char c` is folded to false. An operand is handled soundly
  against all others exactly if its conversions compose or its narrower form never has
  its top bit set (`ShortenCompare.ShortenSoundIff`).
- `gen_type` drops `restrict` from pointers, cannot recover the length of an array of
  empty or incomplete elements, prints the length into ten bytes, and computes it from a
  size that may overflow a wide integer; parameters declared as arrays or functions are
  read as pointers. A type has a text that reads as the type exactly if none of this
  happens in it (`DeclaratorRoundTrip.RoundTripIff`).
- `poplevel` restores all local bindings exactly if no name without an outer local
  binding was declared twice in the level (`Scope.PopRestoresIff`).

Two smaller findings: an integer constant from 2^(2w) up to 2^(2w+8), for wide integers
of w bits, loses its high digits without `overflow` being set (`Literal.ReadDigits`); and
strings or over-wide constants, which `handle_pragma_token` passes over, may stand
anywhere in an accepted `#pragma pack` (`PackPragma.AcceptedIff`).

## Model

| member | source | states |
|---|---|---|
| `AliasRtl.PlusConstantFacts` | gcc-2.95.2_z80/gcc/explow.c:45-161 | adding a constant to an expression adds exactly that constant to its value in every environment, and grows it by at most one sum |
| `AliasRtl.ConstantsStay` | gcc-2.95.2_z80/gcc/explow.c:45-161 | a constant plus an integer is a constant again, wrapped in a CONST if it is a sum |
| `AliasRtl.CanonShrinks` | gcc-2.95.2_z80/gcc/alias.c:538-582 | canonicalisation terminates over acyclic tables: the expression with all tables unfolded never grows |
| `AliasRtl.CanonKeepsValue` | gcc-2.95.2_z80/gcc/alias.c:538-582 | canonicalisation keeps the value in every environment consistent with the known-value table |
| `AliasRtl.CanonHasForm` | gcc-2.95.2_z80/gcc/alias.c:538-582 | no register with a known value is left among the terms of a sum that results |
| `AliasRtl.CanonIdempotent` | gcc-2.95.2_z80/gcc/alias.c:538-582 | canonicalising twice changes nothing more |
| `Alias.MemrefEqualSound` | gcc-2.95.2_z80/gcc/alias.c:587-686 | expressions taken for equal, up to the order of commutative operands, have equal values |
| `Alias.MemrefEqualCongruent` | gcc-2.95.2_z80/gcc/alias.c:626-686 | expressions with equal operands are taken for equal, in either order for sums and products |
| `Alias.PrepareSound` | gcc-2.95.2_z80/gcc/alias.c:895-965 | if the prepared references are separate, the bytes that the references access are apart: an increment or decrement ahead of the access moves it by the size of the reference, one behind it does not |
| `Alias.SeparateIsApart` | gcc-2.95.2_z80/gcc/alias.c:895-923 | the addresses with auto-increments evaluated are separate exactly if the bytes accessed are apart |
| `Alias.StepSound` | gcc-2.95.2_z80/gcc/alias.c:967-1132 | each rule of the conflict test, one query to the next, keeps separateness: if the next query's denial is right so is this one's |
| `Alias.ConflictSound` | gcc-2.95.2_z80/gcc/alias.c:948-1132 | an exact denial is never wrong: in every consistent environment the two references access no byte in common, and one of unknown size does not even have the base of the other. A denial is inexact only if a division lost a remainder while both sizes stayed positive, or a size was negative |
| `Alias.NoSharedByte` | gcc-2.95.2_z80/gcc/alias.c:948-1132 | after a denial no byte that one reference accesses is accessed by the other; for unknown sizes, whatever the extents |
| `Alias.NegativeSizeConflicts` | gcc-2.95.2_z80/gcc/alias.c:948-1132 | a negative size on either side never yields an exact denial, so without products it never yields a denial at all |
| `Alias.NoMultNeverInexact` | gcc-2.95.2_z80/gcc/alias.c:948-1132 | without products in expressions and tables every denial is exact, so soundness is unconditional |
| `Alias.ExactOnCommonBase` | gcc-2.95.2_z80/gcc/alias.c:967-1007 | for two constant offsets from one base, be it a register, an object, a sum or a product, the test answers conflict exactly if some byte is shared |
| `Alias.MeetIff` | gcc-2.95.2_z80/gcc/alias.c:967-976 | the comparison of sizes and distance says exactly whether two ranges have a byte in common |
| `Alias.BasedExact` | gcc-2.95.2_z80/gcc/alias.c:967-1127 | constant offsets from objects and unknown registers, as sums or folded into a CONST, conflict exactly if they are in one base and meet |
| `Alias.KnownValuesDecide` | gcc-2.95.2_z80/gcc/alias.c:948-1127 | addresses that come to such offsets once known values are filled in are decided the same way |
| `Alias.OffsetsFold` | gcc-2.95.2_z80/gcc/alias.c:538-582 | a constant offset from an address with known values is folded into the offset that is there |
| `Alias.InvariantsDecide` | gcc-2.95.2_z80/gcc/alias.c:1057-1080 | two registers that are invariants of the function are decided by what they were initialised from |
| `Alias.DistinctObjectsSeparate` | gcc-2.95.2_z80/gcc/alias.c:999-1127 | offsets from two different objects are denied whatever the sizes |
| `Alias.ScaledPairsSoundIff` | gcc-2.95.2_z80/gcc/alias.c:1032-1055 | for positive sizes and any factor but zero, denials about pairs with the factor are all right exactly if it divides both sizes and the offset, or is negative or greater than a size |
| `Alias.TruncationWitness` | gcc-2.95.2_z80/gcc/alias.c:1051-1053 | whenever a remainder is lost and both sizes are at least the factor, there is a distance at which the references meet and the test denies it; smaller sizes become unknown and nothing is denied |
| `BaseValues.PassHalves` | gcc-2.95.2_z80/gcc/alias.c:1534-1553 | one in-place pass keeps the end of every chain of registers and at least halves its length |
| `BaseValues.PassesHalve` | gcc-2.95.2_z80/gcc/alias.c:1534-1553 | k passes leave at most the k-fold half of every chain |
| `BaseValues.ShortChainsResolve` | gcc-2.95.2_z80/gcc/alias.c:1534-1553 | every chain of fewer than 2^10 hops is replaced by its end within the cap |
| `BaseValues.LongChainUnresolved` | gcc-2.95.2_z80/gcc/alias.c:1534-1553 | the bound is tight: for every longer length there is a chain the cap leaves unresolved |
| `BaseValues.SimplifyPass` | gcc-2.95.2_z80/gcc/alias.c:1538-1550 | the inner loop computes one pass, and reports a change exactly if some entry is a register |
| `BaseValues.Simplify` | gcc-2.95.2_z80/gcc/alias.c:1534-1553 | the capped loop, stopping early or not, computes ten passes, and every short chain is resolved in the array |
| `AliasSets.BelowExtended` | gcc-2.95.2_z80/gcc/alias.c:268-306 | which sets are below which after one more recorded pair |
| `AliasSets.RecordKeepsClosedIff` | gcc-2.95.2_z80/gcc/alias.c:268-306 | recording a pair keeps every children table equal to the descendants exactly if the ancestors of the superset already hold what it gains |
| `AliasSets.SettledRunIsClosed` | gcc-2.95.2_z80/gcc/alias.c:268-306 | if no set gains a subset after being recorded as a subset, every children table is exactly the set of descendants |
| `AliasSets.ChildrenDescend` | gcc-2.95.2_z80/gcc/alias.c:268-306 | after any history a children table holds exactly what can be reached through pairs each recorded before the one above it |
| `AliasSets.HistoryClosedIff` | gcc-2.95.2_z80/gcc/alias.c:268-306 | a whole history leaves every children table equal to the descendants exactly if all descendants can be reached that way |
| `AliasSets.LateSubsetIsLost` | gcc-2.95.2_z80/gcc/alias.c:268-306 | a subset recorded late is missing from an earlier ancestor's table, and references in the two sets are taken to be disjoint |
| `AliasSets.DisjointMeaning` | gcc-2.95.2_z80/gcc/alias.c:186-240 | the disjointness test is symmetric and true exactly if the function takes no variable arguments and both sets are nonzero, distinct and neither reaches the other |
| `AliasSets.AliasSetTable.InsertSubsetChildren` | gcc-2.95.2_z80/gcc/alias.c:245-254 | the walk over the subset's children adds them all to the superset |
| `AliasSets.AliasSetTable.RecordAliasSubset` | gcc-2.95.2_z80/gcc/alias.c:267-306 | the table changes as recording the pair means |
| `SaveAreas.AssignedLayout` | gcc-2.95.2_z80/gcc/caller-save.c:311-325 | giving a group fresh words, and each member its own of them, keeps slots distinct and group slots concatenations |
| `SaveAreas.Areas.Wanted` | gcc-2.95.2_z80/gcc/caller-save.c:288-309 | a group is taken exactly if all its registers are used and none has a slot |
| `SaveAreas.Areas.Assign` | gcc-2.95.2_z80/gcc/caller-save.c:311-325 | exactly the members of the group gain a slot, and the layout stays valid |
| `SaveAreas.Areas.Setup` | gcc-2.95.2_z80/gcc/caller-save.c:252-328 | the registers are gone through in order, and one that no earlier group holds gets the widest group there that has a mode and whose registers are all used and free; the areas are exactly those groups and the words of their members. Every used register with a save mode gets a word, unused registers none, slots never overlap and a group's slot is the concatenation of its members' |
| `SaveAreas.PlanIsWidest` | gcc-2.95.2_z80/gcc/caller-save.c:274-315 | no group with a mode and only used registers is wider than the group given at its first register, unless a group that starts lower has one of its registers |
| `SaveAreas.PlanIsApart` | gcc-2.95.2_z80/gcc/caller-save.c:288-309 | the groups hold only used registers and share none |
| `CallerSave.MarkedAreOperands` | gcc-2.95.2_z80/gcc/caller-save.c:493-547 | mark_referenced_regs marks exactly the registers whose values a pattern evaluates |
| `CallerSave.ObservedAgrees` | gcc-2.95.2_z80/gcc/caller-save.c:493-547 | what an insn does depends on nothing but the registers it reads |
| `CallerSave.StoresAreWritten` | gcc-2.95.2_z80/gcc/caller-save.c:386-391 | note_stores collects exactly the registers that an insn changes: those of some destination that its pattern sets or clobbers |
| `CallerSave.SavesDo` | gcc-2.95.2_z80/gcc/caller-save.c:631-693 | saving groups puts every covered register in its own slot and leaves all other slots and registers alone |
| `CallerSave.RestoresDo` | gcc-2.95.2_z80/gcc/caller-save.c:563-627 | restoring groups loads every covered register from its own slot, however it was saved |
| `CallerSave.GroupsCover` | gcc-2.95.2_z80/gcc/caller-save.c:368-370 | the groups chosen cover every register asked for and none outside the pool |
| `CallerSave.SavedAfterFacts` | gcc-2.95.2_z80/gcc/caller-save.c:353-443 | after the insertions before an insn nothing it references is in the save area, and at a call all candidates are |
| `CallerSave.CandidatesAreLive` | gcc-2.95.2_z80/gcc/caller-save.c:376-431 | from correct liveness at a call the pass picks every register that the call ruins and that is needed behind it, argument and fixed registers aside, and only registers that are live behind it and that the call does not set |
| `CallerSave.CandidatesIff` | gcc-2.95.2_z80/gcc/caller-save.c:376-431 | it picks exactly the call-used registers live behind the call that the call does not set, that are not fixed and not its arguments |
| `CallerSave.Widest` | gcc-2.95.2_z80/gcc/caller-save.c:588-607 | the width found has a slot in the pool and no wider one of at most that many words has |
| `CallerSave.ArgumentIsLost` | gcc-2.95.2_z80/gcc/caller-save.c:353-372 | a concrete failing input with correct liveness: a register saved at one call and next used as the argument of another; the second call reads what the first left in the register |
| `CallerSave.LiveArgumentIsRuined` | gcc-2.95.2_z80/gcc/caller-save.c:396-412 | another: an argument register of a call that stays live is not saved, and the next call that takes it reads what the first left there |
| `CallerSave.InsnKeepsStanding` | gcc-2.95.2_z80/gcc/caller-save.c:332-460 | an insn with nothing it reads in the save area, that ruins no needed argument or fixed register, reads the original values, and every needed register stays in its slot or in place; what is saved stays live |
| `CallerSave.ReferencedNextIsReady` | gcc-2.95.2_z80/gcc/caller-save.c:493-547 | calls find their arguments outside the save area if a pattern, or a jump, references every saved candidate next |
| `CallerSave.BlockSimulates` | gcc-2.95.2_z80/gcc/caller-save.c:332-460 | in a block with correct liveness whose calls find their arguments outside the save area and ruin no argument or fixed register that is needed again, every insn reads what it read originally; memory and needed registers agree and nothing is left in the save area |
| `CallerSave.PathSimulates` | gcc-2.95.2_z80/gcc/caller-save.c:332-460 | the same along every path through blocks, for what the path needs |
| `CallerSaveExact.RiskIsExposed` | gcc-2.95.2_z80/gcc/caller-save.c:332-460 | otherwise, on the machine whose calls mark what they ruin and whose insns pass on what they read, some insn reads a mark or a needed register ends with one |
| `CallerSaveExact.BlockSimulatesIff` | gcc-2.95.2_z80/gcc/caller-save.c:332-460 | with correct liveness, where calls ruin their candidates, a block behaves the same on every machine from every standing state exactly if no call finds an argument in the save area and none ruins an argument or fixed register that is live behind it |
| `CallerSaveExact.PathSimulatesIff` | gcc-2.95.2_z80/gcc/caller-save.c:332-460 | the same for every path of blocks, where only what the path needs has to survive |
| `CallerSavePass.ChainIsBlocks` | gcc-2.95.2_z80/gcc/caller-save.c:444-459 | the chain is rewritten block by block, with nothing saved in between |
| `CallerSavePass.ChainIsPathOuts` | gcc-2.95.2_z80/gcc/caller-save.c:340-460 | the rewriting of a chain of blocks is the sequence of their rewritings |
| `CallerSavePass.Pass.FindGroup` | gcc-2.95.2_z80/gcc/caller-save.c:588-607 | the search finds the widest group that has a slot and lies in the pool |
| `CallerSavePass.Pass.InsertRestore` | gcc-2.95.2_z80/gcc/caller-save.c:562-627 | one restore of the widest group goes in front of or behind the insn, its registers leave the save area, and the count stays right |
| `CallerSavePass.Pass.InsertSave` | gcc-2.95.2_z80/gcc/caller-save.c:630-693 | one save of the widest group goes in front of the insn and its registers are recorded |
| `CallerSavePass.Pass.RestoreAll` | gcc-2.95.2_z80/gcc/caller-save.c:368-370 | the loop inserts exactly the chosen groups, those behind an insn in reverse order |
| `CallerSavePass.Pass.SaveAll` | gcc-2.95.2_z80/gcc/caller-save.c:433-435 | the loop inserts exactly the chosen groups in front of the call |
| `CallerSavePass.Pass.Recount` | gcc-2.95.2_z80/gcc/caller-save.c:438-442 | the recomputed count is the number of saved registers |
| `CallerSavePass.Pass.Visit` | gcc-2.95.2_z80/gcc/caller-save.c:340-459 | one insn becomes exactly its rewriting, and the save area is carried on or emptied at a block's end |
| `CallerSavePass.Pass.SaveCallClobberedRegs` | gcc-2.95.2_z80/gcc/caller-save.c:332-460 | the pass leaves the rewritten chain, with no register in the save area |
| `BitmapValues.Landing` | gcc-2.95.2_z80/gcc/bitmap.c:287-317 | a walk from a cursor between whose two positions no element lies ends at the wanted element if there is one |
| `BitmapValues.SetUpdate` | gcc-2.95.2_z80/gcc/bitmap.c:346-366 | setting a bit in its word adds exactly that bit to the set |
| `BitmapValues.ClearUpdate` | gcc-2.95.2_z80/gcc/bitmap.c:323-340 | clearing a bit in its word removes exactly that bit |
| `BitmapValues.RemoveZero` | gcc-2.95.2_z80/gcc/bitmap.c:334-339 | dropping an element that became zero does not change the set |
| `BitmapValues.MergeStep` | gcc-2.95.2_z80/gcc/bitmap.c:435-502 | one round of the merge extends the combined list by the combination of the lower elements |
| `BitmapValues.MergeBounds` | gcc-2.95.2_z80/gcc/bitmap.c:404-466 | the index of a round is above all that were merged and never the all-ones sentinel, and exactly the lists whose next element has it take part |
| `BitmapValues.CombinedHas` | gcc-2.95.2_z80/gcc/bitmap.c:469-489 | combining words bit by bit combines the bits of the elements as the operation does |
| `BitmapValues.CanonicalIsUnique` | gcc-2.95.2_z80/gcc/bitmap.c:143-214 | two well-formed lists for one set are the same list |
| `Bitmaps.FreeList.Allocate` | gcc-2.95.2_z80/gcc/bitmap.c:82-138 | an element comes off the free list or is new, cleared, and on no list |
| `Bitmaps.FreeList.Release` | gcc-2.95.2_z80/gcc/bitmap.c:76-78 | the element goes on the free list |
| `Bitmaps.Bitmap.ElementFree` | gcc-2.95.2_z80/gcc/bitmap.c:54-78 | exactly that element leaves the list for the free list; the list stays linked both ways and the cursor stays usable though its index is left behind |
| `Bitmaps.Bitmap.Link` | gcc-2.95.2_z80/gcc/bitmap.c:161-214 | from a synchronised cursor the element is linked in at its sorted place |
| `Bitmaps.Bitmap.Clear` | gcc-2.95.2_z80/gcc/bitmap.c:218-232 | the set becomes empty and all elements go to the free list |
| `Bitmaps.Bitmap.FindBit` | gcc-2.95.2_z80/gcc/bitmap.c:287-317 | from any cursor, stale or not, the element of the bit is found if and only if there is one, and the cursor is synchronised |
| `Bitmaps.Bitmap.ClearBit` | gcc-2.95.2_z80/gcc/bitmap.c:322-340 | exactly that bit leaves the set; an element that becomes zero is freed |
| `Bitmaps.Bitmap.SetBit` | gcc-2.95.2_z80/gcc/bitmap.c:345-366 | exactly that bit joins the set |
| `Bitmaps.Bitmap.BitP` | gcc-2.95.2_z80/gcc/bitmap.c:369-388 | the answer is membership in the set, which is unchanged |
| `Bitmaps.Copy` | gcc-2.95.2_z80/gcc/bitmap.c:236-280 | the target becomes an equal list of its own elements; the source is unchanged |
| `Bitmaps.Operation` | gcc-2.95.2_z80/gcc/bitmap.c:393-521 | the target becomes exactly the intersection, difference or union, in a well-formed list, for every aliasing of target and sources |
| `Bitmaps.IorAndCompl` | gcc-2.95.2_z80/gcc/bitmap.c:527-540 | the target gains exactly the bits of the first source not in the second, for every aliasing |
| `BitmapIterate.IfSet` | gcc-2.95.2_z80/gcc/bitmap.h:126-177 | the body runs once for each bit from the minimum up, in increasing order |
| `BitmapIterate.IfAndCompl` | gcc-2.95.2_z80/gcc/bitmap.h:183-244 | the same for the bits of the first bitmap not in the second |
| `BitmapIterate.IfAnd` | gcc-2.95.2_z80/gcc/bitmap.h:250-317 | the same for the bits in both |
| `BitmapRun.Execute` | gcc-2.95.2_z80/gcc/bitmap.c:54-540 | one operation among many bitmaps changes one set as it means and no other; no element is lost, doubled or shared |
| `BitmapRun.Run` | gcc-2.95.2_z80/gcc/bitmap.c:54-540 | any run of operations: every bitmap is the set the operations mean and each element is on exactly one list |
| `ShortenCompare.GetNarrower` | gcc-2.95.2_z80/gcc/tree.c:4576-4620 | the loop strips conversions as the recursive definition does |
| `ShortenCompare.NarrowerExtends` | gcc-2.95.2_z80/gcc/tree.c:4570-4620 | extending the narrower value as reported and converting to the operand's type gives the operand's value |
| `ShortenCompare.StripStops` | gcc-2.95.2_z80/gcc/tree.c:4585-4620 | and no conversion is left that could be stripped: it narrows, or extends in the other way |
| `ShortenCompare.WrapKeepsLow` | gcc-2.95.2_z80/gcc/tree.c:4577-4620 | a conversion keeps the low bits of a value |
| `ShortenCompare.FixedIff` | gcc-2.95.2_z80/gcc/c-common.c:2410-2447 | the result is fixed by a constant exactly if all values of the narrower type give it |
| `ShortenCompare.ZeroDecidedIff` | gcc-2.95.2_z80/gcc/c-common.c:2550-2589 | an unsigned comparison with zero is decided exactly if all values give one result |
| `ShortenCompare.ConstantGoesSecond` | gcc-2.95.2_z80/gcc/c-common.c:2302-2344 | a constant goes second whichever way the comparison is written; the comparison put out is as narrow as the operand that is no constant, or as the wider of two extended alike, where those are narrower than the common type |
| `ShortenCompare.OthersStay` | gcc-2.95.2_z80/gcc/c-common.c:2302-2344 | every other comparison, and one with zero, stays the way round it is, and is as narrow |
| `ShortenCompare.WithConstantIsRight` | gcc-2.95.2_z80/gcc/c-common.c:2361-2512 | a comparison with a constant of more bits, folded or narrowed, answers as the comparison in the common type |
| `ShortenCompare.ReversedIsRight` | gcc-2.95.2_z80/gcc/c-common.c:2449-2480 | a sign-extended operand under an unsigned comparison: the comparison with an extreme value answers the same |
| `ShortenCompare.AlikeAnswers` | gcc-2.95.2_z80/gcc/c-common.c:2519-2541 | operands extended alike compare the same in the wider of their types |
| `ShortenCompare.NominalAnswers` | gcc-2.95.2_z80/gcc/c-common.c:2542-2599 | the comparison in the common type, with its constant cases for zero, is right |
| `ShortenCompare.ShortenPreserves` | gcc-2.95.2_z80/gcc/c-common.c:2270-2599 | for every width, signedness, operator and value the constant or comparison put out answers as the one written, if each operand's conversions compose or its narrower form has no top bit |
| `ShortenCompare.TwiceWidenedFails` | gcc-2.95.2_z80/gcc/c-common.c:2287-2296 | an operand widened to the other signedness and then again, at any value with the top bit, is taken to equal a constant that it does not equal |
| `ShortenCompare.ShortenSoundIff` | gcc-2.95.2_z80/gcc/c-common.c:2270-2599 | every operand is handled soundly against all others exactly if its conversions compose or its narrower form never has the top bit |
| `ShortenCompare.SignedAsUnsignedFails` | gcc-2.95.2_z80/gcc/c-common.c:2287-2296 | every signed variable widened to unsigned and compared in a still wider type is such a case |
| `DeclaratorRoundTrip.GenShows` | gcc-2.95.2_z80/gcc/c-aux-info.c:366-528 | gen_type writes the qualifiers of the base and the declarator with the needed parentheses, and leaves the base in data_type despite nested formal lists |
| `DeclaratorRoundTrip.FormalsShow` | gcc-2.95.2_z80/gcc/c-aux-info.c:171-247 | the formal list is that of the parameters' declarations, with void, ellipsis or nothing |
| `DeclaratorRoundTrip.AffixShows` | gcc-2.95.2_z80/gcc/c-aux-info.c:123-163 | the type is placed behind leading const and volatile and in front of everything else |
| `DeclaratorRoundTrip.ReadDecl` | gcc-2.95.2_z80/gcc/c-parse.c:2716-2798 | the declarator grammar reads every written declarator back, whatever may follow it |
| `DeclaratorRoundTrip.ParensAreRead` | gcc-2.95.2_z80/gcc/c-parse.c:2716-2798 | parentheses around a declarator change nothing |
| `DeclaratorRoundTrip.ReadParms` | gcc-2.95.2_z80/gcc/c-parse.y:2086-2188 | the parameter grammar reads every written list back |
| `DeclaratorRoundTrip.MergeCompletes` | gcc-2.95.2_z80/gcc/c-common.c:2972-2997 | merging pending qualifiers completes a type, also through arrays, and merging them again changes nothing |
| `DeclaratorRoundTrip.GrokAround` | gcc-2.95.2_z80/gcc/c-decl.c:4799-5101 | the loop, given the declarator of a type and its base, arrives at the type with its qualifiers pending, if no size is negative and no parameter among others is void |
| `DeclaratorRoundTrip.GrokFails` | gcc-2.95.2_z80/gcc/c-decl.c:4862-4889 | a negative size at any level, parameters included, or a void among other parameters is an error |
| `DeclaratorRoundTrip.ParmIsAdjusted` | gcc-2.95.2_z80/gcc/c-decl.c:5185-5210 | a parameter declared with any type has that type adjusted: a pointer to the elements of an array, a pointer to a function, and otherwise the type without its own qualifiers |
| `DeclaratorRoundTrip.ListFails` | gcc-2.95.2_z80/gcc/c-decl.c:5537-5625 | a list with an unnamed void is an error unless that is all of it |
| `DeclaratorRoundTrip.GrokIsProper` | gcc-2.95.2_z80/gcc/c-decl.c:4799-5101 | whatever declarator is accepted, the type arrived at has no arrays of functions or void, no functions returning functions or arrays, and no parameter anywhere that is an array or a function or has qualifiers of its own |
| `DeclaratorRoundTrip.ReadIsProper` | gcc-2.95.2_z80/gcc/c-decl.c:4799-5210 | every token sequence that is read as a declaration has such a type |
| `DeclaratorRoundTrip.TextReads` | gcc-2.95.2_z80/gcc/c-aux-info.c:366-528 | for every type the front end makes or can be given, a text that fits its buffers reads as that type without restrict on pointers, with the sizes written and its parameters adjusted, or not at all if a size is negative or a parameter among others void |
| `DeclaratorRoundTrip.SizeKept` | gcc-2.95.2_z80/gcc/c-aux-info.c:397-416 | the length written fits its buffer and is the length of the array exactly if it has at most seven digits and the array's size does not overflow a wide integer, but for single elements, of known nonzero size |
| `DeclaratorRoundTrip.FitsIff` | gcc-2.95.2_z80/gcc/c-aux-info.c:405-408 | a number fits its buffer exactly if it leaves room for the brackets and the terminator |
| `DeclaratorRoundTrip.PointerArrays` | gcc-2.95.2_z80/gcc/c-aux-info.c:397-416 | for arrays of pointers the size that counts is that of a pointer |
| `DeclaratorRoundTrip.SaidIsFaithful` | gcc-2.95.2_z80/gcc/c-aux-info.c:381-418 | the type is written, and as itself, exactly if no pointer is restrict, the length of every sized array, in parameter lists too, is kept, and no parameter is void, an array or a function or has qualifiers of its own |
| `DeclaratorRoundTrip.RoundTripIff` | gcc-2.95.2_z80/gcc/c-aux-info.c:366-528 | the type has a text, and reading it gives the type back, exactly under that condition |
| `DeclaratorRoundTrip.RestrictIsLost` | gcc-2.95.2_z80/gcc/c-aux-info.c:382-396 | a restrict pointer comes back unrestricted |
| `DeclaratorRoundTrip.LongArrayOverruns` | gcc-2.95.2_z80/gcc/c-aux-info.c:405-408 | an array of ten million characters overruns the buffer its length is printed into |
| `AuxInfo.Writer.AffixDataType` | gcc-2.95.2_z80/gcc/c-aux-info.c:123-163 | the loop puts the type where Affix says |
| `AuxInfo.Writer.GenType` | gcc-2.95.2_z80/gcc/c-aux-info.c:366-528 | the text and the global data_type are those of Gen, and the flag says whether every length fitted its buffer |
| `AuxInfo.Writer.FormalList` | gcc-2.95.2_z80/gcc/c-aux-info.c:171-247 | the list and data_type are those of Formals, with the same flag |
| `AuxInfo.GrokLoop` | gcc-2.95.2_z80/gcc/c-decl.c:4799-5101 | the loop over the layers of a declarator computes Grok, errors included, and from a named type only arrives at types that can be made, with all parameters adjusted |
| `Scope.LookupSearches` | gcc-2.95.2_z80/gcc/c-decl.c:2978-2990 | lookup_name finds what an innermost-out search of the levels and of the declarations at file scope finds |
| `Scope.PushLevelKeeps` | gcc-2.95.2_z80/gcc/c-decl.c:1018-1059 | entering a level keeps cached bindings and recorded shadows right |
| `Scope.PushDeclKeeps` | gcc-2.95.2_z80/gcc/c-decl.c:2374-2572 | declaring a name, at file scope or in a level and also a second time, keeps the cache right |
| `Scope.DeclIsFound` | gcc-2.95.2_z80/gcc/c-decl.c:2374-2572 | from a declaration on its name stands for it, at any level, and other names keep their meaning; one put at file scope from a level is found unless a level hides it |
| `Scope.PoppedBinding` | gcc-2.95.2_z80/gcc/c-decl.c:1197-1220 | the binding every name has after a level is left |
| `Scope.PopRestoresIff` | gcc-2.95.2_z80/gcc/c-decl.c:1197-1220 | all names get their outer bindings back exactly if no new name was declared twice in the level |
| `Scope.PopLevelKeeps` | gcc-2.95.2_z80/gcc/c-decl.c:1092-1289 | then leaving the level keeps the cache right and the file scope as it is, and every name stands for what a search from the level outside finds |
| `Scope.DeclaredTwiceStays` | gcc-2.95.2_z80/gcc/c-decl.c:1197-1220 | a new name declared twice keeps its first meaning after the level |
| `ScopeRun.ScopeRestores` | gcc-2.95.2_z80/gcc/c-decl.c:1018-1220 | over any nested run with one declaration per name and level, leaving a level restores all local bindings to their state on entry |
| `ScopeRun.RunLooksUp` | gcc-2.95.2_z80/gcc/c-decl.c:2978-2990 | after any such run, at file scope or in a level, lookup_name equals the search |
| `ScopeRun.RunFileScope` | gcc-2.95.2_z80/gcc/c-decl.c:2374-2572 | a run adds to the file scope exactly what is declared there, wherever that is written, in order |
| `ScopeRun.RunFinds` | gcc-2.95.2_z80/gcc/c-decl.c:2374-2990 | after any such run a name stands for its latest declaration in the level itself, or else for what it stood for in the levels at hand, or else for its latest declaration at file scope |
| `ScopeRun.RunGrows` | gcc-2.95.2_z80/gcc/c-decl.c:1177-1289 | a run adds exactly the blocks it makes to its level, in order, and changes no older supercontext |
| `ScopeRun.PopLinks` | gcc-2.95.2_z80/gcc/c-decl.c:1177-1195 | leaving a level makes its block, or hands its blocks on, with supercontexts set |
| `ScopeRun.FunctionTree` | gcc-2.95.2_z80/gcc/c-decl.c:1177-1289 | a function's tree holds every block made in it exactly once, in order, each with its parent as supercontext |
| `ScopeRun.RunBuilds` | gcc-2.95.2_z80/gcc/c-decl.c:1137-1289 | running items leaves in a level exactly the blocks of the levels inside, nested as those levels are and with their declarations, where levels without a block pass theirs outward |
| `ScopeRun.FunctionShape` | gcc-2.95.2_z80/gcc/c-decl.c:1137-1289 | the tree of a function is that forest under one block |
| `BindingLevels.Bindery.Push` | gcc-2.95.2_z80/gcc/c-decl.c:1018-1059 | the state becomes that of PushLevel and the cache stays right |
| `BindingLevels.Bindery.Declare` | gcc-2.95.2_z80/gcc/c-decl.c:2374-2572 | the state becomes that of PushDecl and the cache stays right |
| `BindingLevels.Bindery.RestoreNames` | gcc-2.95.2_z80/gcc/c-decl.c:1197-1220 | the two loops clear the level's names and put back what they shadowed |
| `BindingLevels.Bindery.SetSupercontexts` | gcc-2.95.2_z80/gcc/c-decl.c:1192-1195 | the loop gives every block of the level its superior |
| `BindingLevels.Bindery.DisposeBlocks` | gcc-2.95.2_z80/gcc/c-decl.c:1177-1289 | the level's block is made if called for, and blocks are handed to the level outside or to the function |
| `BindingLevels.Bindery.Pop` | gcc-2.95.2_z80/gcc/c-decl.c:1092-1289 | the state becomes that of PopLevel, with the cache right if no new name was declared twice |
| `BindingLevels.Bindery.Lookup` | gcc-2.95.2_z80/gcc/c-decl.c:2978-2990 | the result is that of the search |
| `BindingLevels.Bindery.LookupCurrentLevel` | gcc-2.95.2_z80/gcc/c-decl.c:2993-3011 | the result is the latest declaration in the innermost level, or at file scope the latest there |
| `Literal.CarryValue` | gcc-2.95.2_z80/gcc/c-lex.c:1567-1579 | a pass of carries leaves all but the top part below 256 and multiplies and adds exactly |
| `Literal.LowerPartsHold` | gcc-2.95.2_z80/gcc/c-lex.c:1567-1584 | the lower parts hold the value modulo 256 to their number |
| `Literal.TopPart` | gcc-2.95.2_z80/gcc/c-lex.c:1581-1584 | the top part is nonzero exactly if the value reaches that power |
| `Literal.HalvesHold` | gcc-2.95.2_z80/gcc/c-lex.c:1746-1754 | the two halves hold the value modulo the width of two wide integers |
| `Literal.AddDigit` | gcc-2.95.2_z80/gcc/c-lex.c:1567-1579 | in place, the parts become those of value times base plus digit |
| `Literal.CollectHalves` | gcc-2.95.2_z80/gcc/c-lex.c:1746-1754 | the loop gathers the lower parts into low and high |
| `Literal.ReadDigits` | gcc-2.95.2_z80/gcc/c-lex.c:1447-1584 | for every digit sequence and base, overflow is set exactly if the numeral reaches 256^(TOTAL_PARTS-1), (high, low) is the numeral modulo the width of both, and digits are lost without setting overflow exactly from that width up to 256 times as much |
| `PackStack.AllowedIff` | gcc-2.95.2_z80/gcc/c-pragma.c:63-80 | the alignments taken are 0 and the powers of two up to 16 |
| `PackStack.PushRepresents` | gcc-2.95.2_z80/gcc/c-pragma.c:58-105 | a push on the run-length stack is a push on the plain stack, or nothing if the alignment is neither 0 nor a power of two up to 16 |
| `PackStack.PopRepresents` | gcc-2.95.2_z80/gcc/c-pragma.c:138-152 | taking one off the top entry pops one push |
| `PackStack.StripRepresents` | gcc-2.95.2_z80/gcc/c-pragma.c:122-131 | a name is found among the entries exactly if some push has it, and what lies below is what lies below the topmost such push |
| `PackStack.PopEntryRepresents` | gcc-2.95.2_z80/gcc/c-pragma.c:109-155 | a pop with a name drops pushes through the topmost with that name, or one if there is none |
| `PackStack.Packing.PushAlignment` | gcc-2.95.2_z80/gcc/c-pragma.c:58-105 | the pushes become those meant; the alignment in force changes exactly if a new entry starts, and stays eight times the top if it was |
| `PackStack.Packing.PopAlignment` | gcc-2.95.2_z80/gcc/c-pragma.c:109-155 | the pushes become those meant; the alignment in force becomes eight times the top or 0 exactly if an entry ends, and stays so if it was |
| `PackStack.Run` | gcc-2.95.2_z80/gcc/c-pragma.c:58-155 | in every run of pushes and pops the entries stand for the plain stack and the alignment in force is eight times its top or 0 |
| `PackPragma.AcceptedIff` | gcc-2.95.2_z80/gcc/c-pragma.c:233-498 | a line is taken as a directive exactly if it spells that directive, tokens that are passed over aside and numbers converted to int; a directive names no alignment, or a power of two up to 16 |
| `PackPragma.AbortsIff` | gcc-2.95.2_z80/gcc/c-pragma.c:248-257 | the end of a line aborts exactly if every token was passed over, which the lexer rules out by asking for an identifier first |
| `PackPragma.Lines.EndOfLine` | gcc-2.95.2_z80/gcc/c-pragma.c:248-318 | an accepted directive has its effect on stack, alignment in force and result, and anything else has none |
| `PackPragma.Lines.ReadLine` | gcc-2.95.2_z80/gcc/c-pragma.c:233-498 | a whole line has the effect of the directive that it spells, and none if it spells none |
| `IfStack.ReadWarns` | gcc-2.95.2_z80/gcc/c-common.c:97-160 | reading a statement warns about exactly the ifs without else whose then-branch is, but for loops and labels, an if with an else; the enclosing if is marked exactly if nothing was opened since it started |
| `IfStack.Reader.ExpandStartCond` | gcc-2.95.2_z80/gcc/c-common.c:97-124 | an unmarked entry with the present count goes on the stack |
| `IfStack.Reader.ExpandStartElse` | gcc-2.95.2_z80/gcc/c-common.c:142-160 | the enclosing entry is marked if its count is the same, and the own entry unmarked and set back |
| `IfStack.Reader.ExpandEndCond` | gcc-2.95.2_z80/gcc/c-common.c:129-138 | the entry leaves the stack with a warning if it was marked |
| `IfStack.Reader.ReadBody` | gcc-2.95.2_z80/gcc/c-parse.c:3100-3238 | a body read from an empty stack draws exactly its warnings, in the order in which the ifs end |

## Left out

- AND, HIGH, LO_SUM and MEM addresses, and machine modes, in the alias model: they depend on target conventions; sizes are given in bytes.
- A product with the factor 0, where `memrefs_conflict_p` divides by it: the model marks the answer inexact and promises nothing.
- `base_alias_check`, `find_base_term` and the volatile and struct rules of alias.c: heuristics that rest on flags and language rules.
- Wrap-around of address arithmetic: offsets are unbounded integers.
- The sharing of register notes and reload data in caller-save.c, `init_caller_save` and cc0: machine descriptions; save slots are one word for each register.
- CallerSave.BlockSimulates: takes correct liveness as a precondition, because the pass takes it from flow analysis.
- The words of bitmap elements are sets of bit positions and not machine words, so the shifts and masks on them are set operations; the free list is a sequence with links.
- Bodies of the iteration macros that change the bitmap they iterate over.
- Component references in `get_narrower` and real operands in `shorten_compare`; constants are taken to be folded.
- Warnings of `shorten_compare` and the side effects of operands.
- Characters of the declaration text: the model works on tokens, with the number of characters only where a number is printed into a buffer; ints have 32 bits; a data-type name of several words is one token and blanks and the comment for an unknown list are none.
- Anonymous struct, union and enum types in `gen_type`, non-prototype styles, attributes, old-style parameter names, names declared as void types, and array sizes that are not constant.
- Error recovery in `grokdeclarator`: an erroneous declaration has no type.
- Tags, labels, limbo values, `duplicate_decls` and preallocated blocks in c-decl.c.
- Scanning of prefixes, suffixes and floating constants in c-lex.c: `ReadDigits` starts from digits; the top part is unbounded, and combining shifted parts by `|` is addition because they share no bits.
- `#pragma weak`, memory exhaustion, and runs of `PackStack.Run` with a bare `pack(n)`, after which the alignment in force need not be that of the stack.
- Statement expressions, and growth of the array behind the if-stack.
