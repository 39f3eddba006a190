# Polymalys: a verified model

Polymalys is an abstract interpreter that computes, for a binary program, convex
polyhedra over registers, memory cells and virtual loop counters. This project
models its core and proves it correct, from the sparse variable layer up to whole
runs and the fixpoint engine:

* **Linear expressions** over globally numbered variables, the constraint builders
  and their meaning under a valuation (`LinearExpressions`). The strict builders are
  tightened by one unit, so they are strict on integers only.
* **The polyhedra library** (`Polyhedra`) is a parameter, `Ppl`. A polyhedron is its
  dimension and its set of points; embedding, intersection, constraint insertion and
  dimension mapping mean the corresponding set operations, hull and extrapolation are
  only known to contain their arguments. `Ppl.Lawful` is that contract. What a join or a
  widening yields is stated as the library's hull or extrapolation of the two arguments,
  brought onto the variables they share (`UpperBounds`).
* **The sparse polyhedron** `WPoly` (`SparsePolyhedra`, `WPolys`, `ConstraintSystems`,
  `Expansions`): an adapter from variables to dimensions that is renumbered by every
  projection. It denotes a set of total valuations; untracked variables are
  unconstrained. Every operation is specified on that denotation. A method with an
  `ok` result returns false exactly when the code reaches an `abort()`.
* **The identifier mapping** (`Mappings`) over a chained hash table (`HashTables`).
* **The abstract domain** (`AbstractStates`, `Instructions`, `Transfers`, `Domains`,
  `StraightLines`, `Merges`, `Memory`, `AvatarSplits`, `LoopBounds`,
  `BaseSelections`, `Normalization`, `VariableMatches`). `Gamma` is the set of concrete
  environments an abstract state covers; each transfer function covers the concrete
  successors of what it was given, and `Runs` carries this to runs of any length. What an
  operation makes of a state is a relation of `Transfers`: it determines the new state, up
  to the dimensions of its polyhedron, so that nothing more is covered either.
* **Block inputs and whole programs** (`Headers`, `Programs`): joins over the incoming
  edges, the widened state a loop header keeps from visit to visit, and the theorem that
  the states of an analysed CFG cover every run through its merges and loops.
* **The fixpoint engine** (`Fixpoints`, `OrderedDrivers`): a worklist with a bit set and
  an optional order. It terminates in the least solution of the CFG's equations.
* **The processing order** (`Walks`, `PseudoTopoOrders`): the depth-first numbering of
  blocks and loops, and the comparison the worklist is sorted by.
* **The explicit-stack quicksort** (`QuickSort`, with `Powers`).

Division and remainder truncate toward zero where the source's do. Coefficients are
unbounded, as GMP's are. Machine words appear where the code cuts to them or where a
comparison is unsigned (`Words`, `LoopBounds`, the 32-bit bounds of
`Normalization.Euclid` and `QuickSort`).

## What turned out not to hold

* An instruction whose operand is not mapped leaves the state as it is, so a mapped
  destination keeps its old value (poly_PPLDomain.cpp:1783-1786, 1820-1826); and the
  page and complement instructions leave it as it is on every run
  (poly_PPLDomain.cpp:1768-1769, 2241-2242). `StraightLines.UnchangedExact`
  says for every instruction exactly when that is sound: the state must cover every
  result that is possible there. `StaleExact` turns this into "says nothing about the
  destination" for the instructions whose result is then free. An untracked
  destination is sufficient (`UntrackedIsIgnored`, `IgnoredIsSound`).
  `StaleLosesRuns` and `UninterpretedLosesRuns` give states in which runs are lost.
* Unsigned comparisons are interpreted as signed ones, both the instruction
  (poly_PPLDomain.cpp:3686-3690) and the branch conditions
  (poly_PPLDomain.cpp:1031-1049). `Instructions.UnsignedExact`: on 32-bit words the
  filter agrees with the branch if and only if the operands have the same sign.
  `Instructions.UnsignedLosesRuns`: -1 compared with 1. `StraightLines.FilterLosesRuns`:
  a state that the filter empties although the branch is taken.
* The right shifts are encoded as exact divisions or as "not larger", a left shift by
  an unknown amount as "not smaller", the high half of a product as the product.
  `Instructions.ConstraintExact` gives, for every operation, the operands for which
  the constraint admits the concrete result, as an if-and-only-if, and
  `Domains.BinaryExact` carries it to the states. `Instructions.EncodingsLoseRuns` gives
  an input for each encoding that excludes its result. Nothing is promised
  of a known shift by 31 or more, whose factor the source computes in a C `int`.
* A loop bound is cut to a 64-bit word when it is read, and to a C `int` when the loop
  is left (poly_PolyAnalysis.cpp:456). `LoopBounds.BoundExact` and
  `LoopBounds.ExitExact` are the exact conditions, for every rational maximum, under
  which the two words still admit it; `LoopBounds.CountExact` carries them to the
  states. `LoopBounds.TruncationLosesRuns`: a maximum of 2^32 is read correctly, but
  the exit receives zero and loses every state that took a back edge.
  `LoopBounds.NegativeMaximum`: the sign of a negative maximum is lost.
* Aligning two polyhedra without a common variable aborts, because the table functor
  reports a largest target of zero even when it is empty. `WPolys.WPoly.Combine` and
  all that builds on it state the exact condition, `Merges.OnMerge` included.
* The code asserts that a loop counter is mapped, that no filter is pending, and that
  the filter's register is mapped. `Runs.Run` fails exactly when one of these is
  violated; `Runs.RunChecked` gives a condition on the program text under which none is.
* `isBefore` compares the number of one loop with itself
  (poly_PolyAnalysis.cpp:513-519). As written it is still a strict total order, but it
  ignores the nesting: `PseudoTopoOrders.IsBeforeMeans`.
* The comment in `processBB` says loop exit edges are processed last; the loop takes
  them first (poly_PolyAnalysis.cpp:394-400). The model follows the loop.

## Model

| member | source | states |
|---|---|---|
| `LinearExpressions.EvalPlus` | poly_PolyWrap.cpp:113-132 | the sum of two expressions evaluates to the sum of their values, cancelled terms included |
| `LinearExpressions.EvalScale` | poly_PolyWrap.cpp:136-145 | a multiple evaluates to the multiple of the value, zero included |
| `LinearExpressions.EvalMinus` | poly_PolyWrap.cpp:151-153 | subtraction, built from sum and multiple, evaluates to the difference |
| `LinearExpressions.BuildersMean` | poly_PolyWrap.cpp:92-112 | what each of the five comparison operators says of the values; the strict ones are off by one unit |
| `LinearExpressions.StrictOnIntegers` | poly_PolyWrap.cpp:107-112 | on integer values the tightened builders are exactly the strict comparisons |
| `LinearExpressions.Add` | poly_PolyWrap.cpp:113-132 | the two loops of `operator+` compute the sum, dropping the left operand's terms that cancel |
| `LinearExpressions.Multiply` | poly_PolyWrap.cpp:136-145 | the loop of `operator*` computes the multiple, the empty expression for zero |
| `Polyhedra.EliminatorIsDimMap` | include/PolyWrap.h:145-172 | `Eliminator::maps` is an order-preserving bijection from the surviving dimensions onto an initial segment, and `max_in_codomain` is its last element |
| `Polyhedra.EliminatorMaps` | include/PolyWrap.h:154-165 | the counting loop computes that bijection |
| `Polyhedra.NewMapHash` | include/PolyWrap.h:175-185 | the scan finds the largest target, zero for an empty table |
| `SparsePolyhedra.HasAgree` | include/PolyWrap.h:472-474 | untracked variables are unconstrained |
| `SparsePolyhedra.MapMeaning` | include/PolyWrap.h:441-463 | mapping the dimensions denotes exactly projection followed by renaming |
| `SparsePolyhedra.EqualMeaning` | include/PolyWrap.h:403-408 | on a common adapter, equality of the polyhedra is equality of the denotations |
| `ConstraintSystems.InvMap` | poly_PolyWrap.cpp:194-200 | the inverse of a bijective adapter |
| `ConstraintSystems.BackTranslate` | poly_PolyWrap.cpp:201-216 | the translated constraint says of the variables what the original says of the dimensions, and mentions exactly the variables with a non-zero coefficient |
| `ConstraintSystems.Constraints` | include/PolyWrap.h:205-225 | the constraints iterated over have exactly the polyhedron's valuations as solutions |
| `UpperBounds.ProjectsThrough` | include/PolyWrap.h:530-552 | projecting and renaming twice is projecting and renaming along the composed table |
| `UpperBounds.HullThrough` | include/PolyWrap.h:424-428 | a hull of what was renamed is the hull read through the renaming |
| `UpperBounds.HullLeast` | include/PolyWrap.h:424-428 | with a least hull in the library, the hull lies in every polyhedron on some of its variables that contains both arguments |
| `UpperBounds.Spread` | poly_PolyWrap.cpp:219-258 | a polyhedron says the same on more dimensions, and is still one |
| `WPolys.WPoly.constructor` | include/PolyWrap.h:249-251 | the polyhedron without variables: every valuation, or none |
| `WPolys.WPoly.ToPpl` | poly_PolyWrap.cpp:166-173 | translation allocates a dimension for every new variable and renames the terms injectively |
| `WPolys.WPoly.AddConstraint` | include/PolyWrap.h:296-332 | adding a constraint is exact intersection with its solutions, also when it brings in new variables |
| `WPolys.WPoly.MapAdapterDim` | include/PolyWrap.h:515-528 | the adapter follows the dimension map and drops the variables it does not map |
| `WPolys.WPoly.MapWithDim` | include/PolyWrap.h:441-463 | exact effect of a dimension map on polyhedron, adapter and `next`, and exactly when the check aborts |
| `WPolys.WPoly.MapVars` | include/PolyWrap.h:530-552 | for a partial renaming injective on the tracked variables: projection followed by renaming, adapter again a bijection onto 0..next-1 |
| `WPolys.WPoly.Unconstrain` | include/PolyWrap.h:355-362 | projects one variable out; an untracked one is left alone |
| `WPolys.WPoly.Align` | poly_PolyWrap.cpp:251-257 | renumbers the other polyhedron like this one without changing what it denotes; aborts exactly when there is no variable |
| `WPolys.WPoly.AlignmentIsDimMap` | poly_PolyWrap.cpp:251-257 | the renumbering table is a permutation of the dimensions, and its maximum is the last dimension exactly when there is one |
| `WPolys.WPoly.Combine` | poly_PolyWrap.cpp:219-258 | both end on one bijective adapter; with keep neither denotation changes, without keep each becomes its projection onto the shared variables; aborts exactly when no variable results |
| `WPolys.WPoly.IsEmpty` | include/PolyWrap.h:374-376 | decides whether any valuation is left |
| `WPolys.WPoly.Equals` | include/PolyWrap.h:403-408 | decides equality of the denotations, whatever the two adapters are |
| `WPolys.WPoly.IntersectionAssign` | include/PolyWrap.h:411-421 | exact intersection of the denotations |
| `WPolys.WPoly.PolyHullAssign` | include/PolyWrap.h:424-428 | exactly the library's hull of the two arguments over the shared variables; contains both denotations; and, with a least hull in the library, is contained in every polyhedron on these variables that does |
| `WPolys.WPoly.ExtrapolationAssign` | include/PolyWrap.h:431-436 | exactly the library's extrapolation of the two arguments over the shared variables; contains the wider argument |
| `WPolys.BijectiveSize` | include/PolyWrap.h:355-357 | a valid adapter has as many entries as the polyhedron has dimensions, as the code asserts |
| `Expansions.DoExpand` | poly_PPLDomain.cpp:757-768 | with an untracked copy, exactly the valuations that lie in the polyhedron both as they are and with the variable replaced by the copy |
| `Expansions.DoFold` | poly_PPLDomain.cpp:749-755 | the hull of the two equalities: contains every valuation in which the merged variable equals one of the two, and is the least such polyhedron if the library's hull is; exact abort condition |
| `HashTables.OverwrittenLookup` | include/MyHTable.h:97-99 | overwriting a value in a chain changes the lookup of that key only |
| `HashTables.UnlinkedLookup` | include/MyHTable.h:142-153 | unlinking a node removes exactly its key from the lookup |
| `HashTables.MyHTable.Find` | include/MyHTable.h:48-59 | finds the node of a key exactly when the table holds it |
| `HashTables.MyHTable.Get` | include/MyHTable.h:121-124 | the value the table's map has for a present key |
| `HashTables.MyHTable.Make` | include/MyHTable.h:61-63 | adds an entry in front of its bucket; keys stay distinct |
| `HashTables.MyHTable.Put` | include/MyHTable.h:136-137 | map update, present or not |
| `HashTables.MyHTable.Remove` | include/MyHTable.h:142-153 | map removal, present or not |
| `HashTables.MyHTable.PutAll` | include/MyHTable.h:139-140 | map override by the other table, whatever the two bucket counts |
| `HashTables.MyHTable.Clear` | include/MyHTable.h:155-160 | the empty map |
| `HashTables.InternIterator.Next` | include/MyHTable.h:65-79 | each step visits one entry that was not visited before |
| `HashTables.InternIterator.EndedVisitedAll` | include/MyHTable.h:68 | an ended iteration has visited every entry, so each exactly once |
| `Mappings.InverseAdded` | include/PPLDomain.h:242-251 | releasing both sides before adding keeps the two tables exact inverses |
| `Mappings.InverseRemoved` | include/PPLDomain.h:261-270 | removing a pair from both keeps them exact inverses |
| `Mappings.InverseUnique` | include/PPLDomain.h:293-295 | each of two inverse tables determines the other, and both are one-to-one |
| `Mappings.AddedOneToOne` | include/PPLDomain.h:242-251 | adding a pair keeps the mapping one-to-one |
| `Mappings.Mapping.Add` | include/PPLDomain.h:242-251 | the identifier gets the variable; whatever held either is released |
| `Mappings.Mapping.Del1` | include/PPLDomain.h:261-265 | removes the identifier and its variable |
| `Mappings.Mapping.Del2` | include/PPLDomain.h:267-270 | removes the variable and its identifier |
| `Mappings.Mapping.Find2` | include/PPLDomain.h:257-259 | the reverse lookup inverts the forward one |
| `Mappings.Mapping.Includes` | include/PPLDomain.h:219-236 | decides inclusion of the maps, checking both tables |
| `Mappings.Mapping.Equals` | include/PPLDomain.h:238-240 | decides equality of the maps |
| `AbstractStates.AssignSound` | poly_PPLDomain.cpp:2643-2683 | a fresh variable constrained by what the new value satisfies covers the assignment |
| `AbstractStates.RenameSound` | poly_PPLDomain.cpp:2262-2294 | renumbering the variables loses no environment |
| `AbstractStates.RenameExact` | poly_PPLDomain.cpp:2262-2294 | and, when every identifier survives, gains none |
| `AbstractStates.ProjectExact` | poly_PPLDomain.cpp:2620-2642 | projecting out a variable that no identifier uses changes nothing |
| `AbstractStates.ConstantMeans` | poly_PPLDomain.cpp:647-656 | a variable whose extrema coincide has that rational value throughout |
| `AbstractStates.ConstantFound` | poly_PPLDomain.cpp:647-656 | a tracked variable with one value, whole or a fraction, is found to be a constant, if the library reports one extremum where the two coincide |
| `AbstractStates.ProjectedPin` | poly_PPLDomain.cpp:2620-2642 | projecting out another variable keeps what the state pins an identifier to |
| `AbstractStates.PinnedIsKnown` | poly_PPLDomain.cpp:647-656 | in a state that is not empty, an identifier pinned to a number is found to be that constant |
| `Instructions.ConstraintExact` | poly_PPLDomain.cpp:3668-3725 | where the source defines the constraint, it holds of the concrete result if and only if the operands are as `Exact` says |
| `Instructions.ConstraintMeans` | poly_PPLDomain.cpp:3668-3725 | the constraint of every operation as a relation between any three values: the sum, the difference, the multiple by a known factor, the bound for an unknown one |
| `Instructions.EncodedExact` | poly_PPLDomain.cpp:3668-3725 | where the constraint determines the destination it holds of the concrete result and of no other value, for the operands for which it is exact |
| `Instructions.ProductExact` | poly_PPLDomain.cpp:3700-3721 | a product with a known operand is encoded exactly, rational constants included |
| `Instructions.LeftShiftExact` | poly_PPLDomain.cpp:3677-3684 | a left shift by a known amount below 31 is exact; by an unknown one only for these operands |
| `Instructions.FilterAgrees` | poly_PPLDomain.cpp:1015-1052 | the filter agrees with the branch when the condition is signed or the operands lie in one block of 2^32 values |
| `Instructions.UnsignedExact` | poly_PPLDomain.cpp:1031-1049 | on words, an unsigned condition is filtered as the branch decides it if and only if the operands have the same sign |
| `Instructions.UnsignedLosesRuns` | poly_PPLDomain.cpp:3686-3690 | an input for which it is not, and for which the comparison's constraint excludes its result |
| `Instructions.EncodingsLoseRuns` | poly_PPLDomain.cpp:3677-3721 | for the right shifts, the left shift by an unknown amount and the high product: operands whose result the constraint excludes |
| `Instructions.CoherentStep` | poly_PPLDomain.cpp:2243-2252 | a register tested by a conditional holds the difference of the operands compared, after every instruction |
| `Domains.PPLDomain.VarNew` | poly_PPLDomain.cpp:2643-2683 | a fresh variable for the identifier, the old one scheduled to be destroyed |
| `Domains.PPLDomain.VarKill` | include/PPLDomain.h:868-886 | unmaps the identifier and schedules its variable |
| `Domains.PPLDomain.DoFinalizeUpdate` | poly_PPLDomain.cpp:2620-2641 | exactly the projection onto the variables that are not scheduled; loses no environment, gains none when the scheduled ones are unmapped; a state without elements becomes the canonical bottom |
| `Domains.PPLDomain.DoScratch` | poly_PPLDomain.cpp:2296-2304 | exactly the projection of the register's variable, so it covers every new value and nothing else is lost |
| `Domains.PPLDomain.SetImmediate` | poly_PPLDomain.cpp:1770-1778 | the register gets a fresh variable that has the constant's value, and nothing else changes; the assignment is covered |
| `Domains.PPLDomain.SetRegister` | poly_PPLDomain.cpp:1779-1795 | the register gets a fresh variable equal to the source's, and nothing else changes, also onto the same register; leaves the state alone when the source is not mapped |
| `Domains.PPLDomain.Binary` | poly_PPLDomain.cpp:1796-1835 | the destination gets a fresh variable, constrained exactly as the operation is encoded, destination among the operands or not; covers every guarded operation; leaves the state alone when an operand is not mapped |
| `Domains.BinaryExact` | poly_PPLDomain.cpp:1796-1835 | with a destination that is not an operand, the step is covered if and only if the constraint is right for the operands |
| `Domains.PPLDomain.OnSemInst` | poly_PPLDomain.cpp:1746-1835 | each instruction makes of the state exactly what `Transfers.Interprets` says: identifiers, elements, filter and scheduled variables; the result covers every guarded step of every covered environment |
| `Transfers.ComputesExactly` | poly_PPLDomain.cpp:1796-1835 | with a destination that is not an operand, a constraint that determines it and operands for which it is exact: an environment is covered afterwards if and only if it was, up to the destination, and has the concrete result there |
| `Domains.PPLDomain.DoKillTemporaries` | poly_PPLDomain.cpp:2310-2325 | unmaps exactly the temporaries, schedules exactly their variables and loses nothing |
| `Domains.PPLDomain.OnLoopEntry` | poly_PPLDomain.cpp:993-999 | maps the counter to a fresh variable that is exactly zero; covers the entry |
| `Domains.PPLDomain.OnLoopIter` | poly_PPLDomain.cpp:982-991 | the counter's new variable is exactly one more than the old one; covers the back edge |
| `Domains.PPLDomain.OnLoopExit` | poly_PPLDomain.cpp:920-980 | keeps exactly what respects a non-negative bound, a C `int`, and unmaps exactly the counter |
| `Domains.PPLDomain.OnBranch` | poly_PPLDomain.cpp:1001-1053 | leaves exactly the elements that meet the condition or its inverse, for "different" the hull of the two sides; keeps every environment whose compared operands send the branch this way, if the condition is signed or the operands lie in one block; unmaps exactly the register |
| `Domains.ExcludeZero` | poly_PPLDomain.cpp:1016-1023 | the hull of the two sides of zero, and it keeps every integer other than zero |
| `Transfers.DifferentLeast` | poly_PPLDomain.cpp:1016-1023 | with a least hull, "different" leaves no more than any polyhedron on these variables that contains both sides |
| `Transfers.FiltersExactly` | poly_PPLDomain.cpp:1015-1052 | for every other condition, an environment is covered after the filter if and only if it was and the register satisfies the condition |
| `Transfers.MeetsHolds` | poly_PPLDomain.cpp:1015-1052 | on the integers, what the filters ask of a value is the condition |
| `Domains.InvertMeans` | poly_PPLDomain.cpp:1008 | a value goes the way of the branch if and only if it satisfies the condition, inverted when the branch is not taken |
| `Domains.PPLDomain.IsBottom` | include/PPLDomain.h:592-592 | decides whether the state has no element |
| `StraightLines.StraightIsGuarded` | poly_PPLDomain.cpp:1761-1835 | a condition read off the abstract state alone under which an instruction is interpreted soundly |
| `StraightLines.StraightPathCovered` | poly_PPLDomain.cpp:1761-1835 | straight-line code of any length, with known small shifts and unsigned comparisons of known words, keeps the concrete register file covered all along |
| `StraightLines.RunSimple` | poly_PPLDomain.cpp:1761-1835 | for a text of such operations, with left shifts by registers last set to a constant, that reads only what is mapped: the interpretation reaches the end, every state is what its statement makes of the one before, has the identifiers the text says and pins the constants it tells, and every run is covered without further conditions |
| `StraightLines.UnchangedExact` | poly_PPLDomain.cpp:1768-1826 | leaving the state as it is, is sound for an instruction if and only if the state covers every result it can yield there |
| `StraightLines.StaleExact` | poly_PPLDomain.cpp:1768-1826 | for the instructions whose result is then free, if and only if the state says nothing about the destination |
| `StraightLines.UnsignedYields` | poly_PPLDomain.cpp:1820-1826 | the results an unsigned comparison with an unmapped operand can yield, in closed form |
| `StraightLines.ProductYields` | poly_PPLDomain.cpp:1820-1826 | the results a product with an unmapped operand can yield, in closed form |
| `StraightLines.IgnoredIsSound` | poly_PPLDomain.cpp:1768-1826 | whatever the instruction, a state that says nothing about its destination covers it |
| `StraightLines.UntrackedIsIgnored` | include/PolyWrap.h:260-262 | a state says nothing about a register whose variable is not tracked |
| `StraightLines.StaleLosesRuns` | poly_PPLDomain.cpp:1783-1786 | a concrete state in which it is not |
| `StraightLines.UninterpretedLosesRuns` | poly_PPLDomain.cpp:1768-1769 | a concrete state in which the page and the complement instruction lose runs |
| `StraightLines.FilterLosesRuns` | poly_PPLDomain.cpp:1031-1049 | a concrete state that the filter of an unsigned condition empties, although the branch is taken |
| `Merges.UnifyInjective` | poly_PPLDomain.cpp:3623-3632 | the renaming is injective and drops exactly the identifiers absent from the other side |
| `Merges.UnifyRename` | poly_PPLDomain.cpp:3623-3632 | the loop builds the renaming from left to right variables |
| `Merges.MapIdents` | poly_PPLDomain.cpp:2269-2289 | the mapping follows the renaming |
| `Merges.DoMap` | poly_PPLDomain.cpp:2262-2294 | exactly the projection onto the shared identifiers' variables, renamed to the right state's; the identifiers follow; no environment is lost, and none gained when every identifier is shared |
| `Merges.DoUnify` | poly_PPLDomain.cpp:3342-3402 | the left state becomes exactly its projection onto the shared identifiers, renamed, after finalising when avatars are created; exactly when it aborts |
| `Merges.OnMerge` | poly_PPLDomain.cpp:1625-1679 | the result is determined: the library's hull, extrapolated exactly when widening, of the renamed left state and the right state, finalised, over exactly their shared identifiers, with the left filter and memory counter; it covers both states; exactly when the merge aborts, with and without avatar creation |
| `Merges.JoinPolys` | poly_PPLDomain.cpp:1667-1669 | the hull over the shared variables, extrapolated exactly when widening; the plain join is the least upper bound there if the library's hull is |
| `Merges.MergeLeast` | poly_PPLDomain.cpp:1625-1679 | a plain join lies in every polyhedron on its variables that contains the renamed left state and the right state, if the library's hull is least |
| `Headers.JoinEdges` | poly_PolyAnalysis.cpp:60-73 | the edges joined in order from bottom, exactly; covers every one of them; fails only where a join on the way aborts |
| `Headers.EqualStates` | poly_PPLDomain.cpp:240-352 | finds two states equal if and only if they look equal and the left one, renamed after the right one, has the same elements; equal states cover the same environments; aborts exactly when they look equal without a common variable |
| `Headers.EqualToItself` | poly_PPLDomain.cpp:240-352 | a state that tracks variables of its identifiers only is found equal to a copy of itself |
| `Headers.SharedCount` | poly_PPLDomain.cpp:314-317 | counting the identifiers left after unification tells whether one was unmatched |
| `Headers.HeaderState.constructor` | poly_PolyAnalysis.cpp:75-81 | a new header has the bottom state, and no avatars to create |
| `Headers.HeaderState.Update` | poly_PolyAnalysis.cpp:83-142 | restarts exactly on an entry state that is not found equal to the last, and then widens by the back state, exactly; the header covers its entry and back states, whatever it was before; exactly when it aborts |
| `Headers.HeaderState.Widen` | poly_PolyAnalysis.cpp:140-142 | the state becomes exactly the widening of the back state with it, and avatars are created until a back edge is reached; covers both; exactly when it aborts |
| `Headers.ProcessHeader` | poly_PolyAnalysis.cpp:60-142 | the entry edges and the back edges are joined apart and the header is updated by the two joins, exactly; its state covers every entry edge and every back edge; fails only where one of these aborts |
| `Programs.BlockInput` | include/OrderedDriver.h:175-181 | the input of a block is the join of its incoming edges and includes what each of them carries |
| `Programs.HeaderInput` | poly_PolyAnalysis.cpp:60-142 | so does the widened state of a header |
| `Programs.AnalyseEdge` | poly_PolyAnalysis.cpp:365-485 | interpreting the code of a block and an edge yields a sound trace from the block's input, in which each state is what its statement makes of the one before; fails exactly at a statement an assertion rejects |
| `Programs.ProgramCovered` | poly_PolyAnalysis.cpp:394-485 | when each edge starts from its block's input and ends within the next block's, every guarded run of the program, through any merges and loops, is covered at every point |
| `Memory.MemTabReplace` | poly_PPLDomain.cpp:2740-2773 | exact effect: three new variables tied to address, source and count, the old cell unmapped |
| `Memory.ReplacedCovers` | poly_PPLDomain.cpp:2740-2773 | replacing a cell covers the environments in which the new cell holds the source's value |
| `Memory.MemMergePlain` | poly_PPLDomain.cpp:2848-2864 | after rewinding the generator both branches number the new cell alike, and the state becomes exactly the hull of the two outcomes, which covers the new and the old value |
| `Memory.MemMergeAvatar` | poly_PPLDomain.cpp:2865-2902 | with avatars: exactly the new cell's identifiers are mapped in place of the old ones, and the state becomes exactly the hull of the old pair and the pairs that enclose the new value, finalised |
| `AvatarSplits.SplitTerms` | poly_PPLDomain.cpp:4160-4184 | the two expressions built from a constraint: the upper variable on the side where larger values satisfy it |
| `AvatarSplits.SplitCollapses` | poly_PPLDomain.cpp:2593-2601 | with both variables equal, the split system is exactly the original one |
| `AvatarSplits.SplitWidens` | poly_PPLDomain.cpp:4151-4196 | a larger upper or a smaller lower variable is always accepted |
| `AvatarSplits.SplitExtends` | poly_PPLDomain.cpp:4151-4196 | whatever satisfies the constraints that do not mention the variable extends to a solution, even if the variable had no value |
| `AvatarSplits.SplitMeaning` | poly_PPLDomain.cpp:4151-4196 | the three properties together, on the denotations |
| `AvatarSplits.DoAvatarSplit` | poly_PPLDomain.cpp:4151-4196 | the new polyhedron is the split system of the old one's constraints |
| `LoopBounds.GetLoopBound` | poly_PPLDomain.cpp:827-838 | the bound is read off the counter's maximum, which some element has; some element is at least the bound and less than one above it, if the maximum fits the words; the bound covers every covered count, if the words keep the maximum |
| `LoopBounds.UpperBoundExact` | poly_PPLDomain.cpp:682-687 | what is read off a state is the maximum of the variable: reached, and not exceeded; nothing is read only where there is no maximum, if the library finds those there are |
| `LoopBounds.BoundReached` | poly_PPLDomain.cpp:827-838 | for every maximum that fits the words, some element lies between the bound and the next number |
| `LoopBounds.BoundExact` | poly_PPLDomain.cpp:827-838 | for every rational maximum, the bound is unbounded or at least it if and only if the words keep it |
| `LoopBounds.ExitExact` | poly_PolyAnalysis.cpp:456-473 | for every rational maximum, the exit under the bound, cut to a C `int`, admits it if and only if the narrower word keeps it |
| `LoopBounds.CountExact` | poly_PPLDomain.cpp:827-838 | in a state that attains its maximum, the bound and the exit cover every count if and only if the words keep it |
| `LoopBounds.BoundCovers` | poly_PPLDomain.cpp:827-838 | under these conditions both cover every count below the maximum |
| `LoopBounds.WholeBoundExact` | poly_PPLDomain.cpp:827-838 | the two conditions for a whole maximum, in plain numbers |
| `LoopBounds.TruncationLosesRuns` | poly_PolyAnalysis.cpp:456-473 | a maximum of 2^32 for which the exit loses every state with a positive count, and one of 2^64 read as zero |
| `LoopBounds.NegativeMaximum` | poly_PPLDomain.cpp:834-836 | the bound read off a negative maximum is that of its magnitude |
| `Runs.RunStmt` | poly_PolyAnalysis.cpp:228-483 | a bottom state is skipped; otherwise a statement fails exactly when the code asserts what does not hold, and else its state is exactly what the statement makes of the one before, has the shape the text says and covers the step |
| `Runs.Run` | poly_PolyAnalysis.cpp:365-485 | interpreting a path of instructions and edges fails exactly at a state, not bottom, whose next statement an assertion rejects; each state is exactly what its statement makes of the one before; it covers every guarded concrete run, at every point, and its states pin the constants the text tells |
| `Runs.RunChecked` | poly_PolyAnalysis.cpp:365-485 | for a text that is well nested and reads only what is mapped, it never fails and covers every run whose values are acceptable |
| `Runs.CounterCounts` | poly_PPLDomain.cpp:982-999 | the virtual counter is the number of back edges since the loop was entered |
| `Runs.BoundCoversRun` | poly_PPLDomain.cpp:827-838 | in every covered run the bound is at least the number of back edges, and leaving under the bound cut to a C `int` excludes no run, if the words keep the maximum |
| `Runs.LoopBoundSound` | poly_PolyAnalysis.cpp:452-473 | the same in every state of a path, for every guarded run along it |
| `BaseSelections.CollectPolyVars` | poly_PPLDomain.cpp:4140-4150 | exactly the variables of the dimensions that the library's constraints mention; two valuations that agree on them are in the polyhedron alike |
| `BaseSelections.NoEqualityFound` | poly_PPLDomain.cpp:3389-3398 | without an equality in the projection, no affine relation holds between its variables |
| `BaseSelections.EqualityFound` | poly_PPLDomain.cpp:3389-3398 | with one, the candidate is an affine function of the variables chosen before |
| `BaseSelections.SelectBase` | poly_PPLDomain.cpp:3375-3399 | the common variables are those both states' constraints mention; the chosen ones satisfy no affine equality on the hull; every other is an affine function, in both states, of the base, and on the hull of the smaller chosen ones |
| `BaseSelections.BaseUnique` | poly_PPLDomain.cpp:3375-3399 | there is only one such base |
| `Normalization.GcdScales` | poly_PPLDomain.cpp:4116-4125 | truncating Euclid is homogeneous, negative factors included |
| `Normalization.PGcdDivides` | poly_PPLDomain.cpp:4116-4125 | the divisor computed divides every entry and is not zero when one entry is not |
| `Normalization.NormIsCanonical` | poly_PPLDomain.cpp:4091-4134 | two vectors normalise alike if and only if they are non-zero multiples of one another |
| `Normalization.NormDefines` | poly_PPLDomain.cpp:4127-4132 | normalising does not change which values satisfy the equality |
| `Normalization.MatchedValuesAgree` | poly_PPLDomain.cpp:3460-3464 | values that satisfy equalities with equal normal forms are equal whenever the base values agree |
| `VariableMatches.VectorDefines` | poly_PPLDomain.cpp:4090-4113 | the vector says of the values what the equality it was filled from says |
| `VariableMatches.FillVector` | poly_PPLDomain.cpp:4091-4113 | the loop fills the vector |
| `VariableMatches.IdentifyPolyVar` | poly_PPLDomain.cpp:4074-4135 | finds a description of a variable by the base, in normal form, and, on an independent base, finds one if and only if the variable depends on it |
| `VariableMatches.MatchedVariablesAgree` | poly_PPLDomain.cpp:3460-3464 | in any two elements of two states that agree on the base, variables with one description have the same value |
| `VariableMatches.DescriptionUnique` | poly_PPLDomain.cpp:4074-4135 | on an independent base a variable has one description in normal form |
| `VariableMatches.MatchingIsComplete` | poly_PPLDomain.cpp:3460-3464 | variables that are the same affine function of a base, independent in both states, have equal descriptions: no match is missed |
| `Normalization.ComputeGcd` | poly_PPLDomain.cpp:4116-4125 | the loops compute the divisor |
| `Normalization.Normalize` | poly_PPLDomain.cpp:4116-4132 | the array becomes its normal form in place |
| `Normalization.Euclid` | poly_PPLDomain.cpp:3801-3820 | the greatest common divisor and an inverse up to it, modulo a; no 32-bit overflow on the way |
| `Normalization.BezoutStep` | poly_PPLDomain.cpp:3808-3817 | |bezout| * old_rest + |old_bezout| * rest stays equal to a, with alternating signs |
| `Fixpoints.LeastIsUnique` | include/OrderedDriver.h:58-84 | whatever order the least solution is computed in, the states are the same |
| `Fixpoints.RunsHeld` | poly_PolyAnalysis.cpp:394-485 | concrete runs of any length stay within the states on the edges for any block inputs that cover the incoming edges: joins, or widened header states |
| `Fixpoints.RunsStayCovered` | poly_PolyAnalysis.cpp:394-485 | with joins as block inputs, concrete runs of any length stay within a terminated analysis, for any domain whose join only covers its arguments |
| `Fixpoints.RunsAreCovered` | poly_PolyAnalysis.cpp:394-485 | concrete runs of any length stay within any solution of the equations |
| `Fixpoints.JoinAllMonotone` | include/OrderedDriver.h:175-181 | the input of a block is monotone in the states on its edges |
| `Fixpoints.DemandMonotone` | poly_PolyAnalysis.cpp:394-485 | so is what a block sends along each edge, skipped bottoms included |
| `OrderedDrivers.OrderedDriver.constructor` | include/OrderedDriver.h:58-64 | only the entry's edges carry the initial state, and the invariant towards the least solution holds |
| `OrderedDrivers.OrderedDriver.Push` | include/OrderedDriver.h:186-195 | inserts a vertex once, at the place the order gives it; bit set and sortedness are kept |
| `OrderedDrivers.OrderedDriver.Pop` | include/OrderedDriver.h:197-201 | removes a vertex that no other one stands before, the one queued first among its equals, and clears its bit |
| `OrderedDrivers.OrderedDriver.Next` | include/OrderedDriver.h:76-84 | drops the exit and nothing else |
| `OrderedDrivers.OrderedDriver.Check` | include/OrderedDriver.h:159-163 | the edge gets the state, and its sink is queued exactly when the state changed |
| `OrderedDrivers.OrderedDriver.Input` | include/OrderedDriver.h:175-181 | the join of the states on the incoming edges |
| `OrderedDrivers.InsertKeepsSorted` | include/OrderedDriver.h:186-195 | insertion keeps the vector sorted for every strict weak order |
| `OrderedDrivers.InsertKeepsAge` | include/OrderedDriver.h:186-195 | insertion keeps the vertices queued earlier nearer to the end among equals |
| `OrderedDrivers.ProcessedProgress` | poly_PolyAnalysis.cpp:394-485 | processing a block keeps the states below every post-solution and growing, and leaves the equations of all unqueued blocks satisfied |
| `OrderedDrivers.BottomWasThere` | poly_PolyAnalysis.cpp:423-426 | an edge skipped because its state is bottom carried bottom already |
| `OrderedDrivers.ProcessBlock` | poly_PolyAnalysis.cpp:394-485 | one block, loop exit edges first, keeps the invariant; if no state changed the worklist did not either |
| `OrderedDrivers.RemainingShrinks` | include/OrderedDriver.h:159-163 | a change uses up remaining lattice height, the termination measure |
| `OrderedDrivers.ProcessCFG` | poly_PolyAnalysis.cpp:564-592 | with or without an order, the analysis terminates in the least solution |
| `PseudoTopoOrders.PseudoTopoOrder.constructor` | poly_PolyAnalysis.cpp:544-562 | every block gets one number, sources before sinks on all but back edges, inner loops before the loops around them, and nothing looked up later is missing |
| `PseudoTopoOrders.PseudoTopoOrder.GetPseudoTopo` | poly_PolyAnalysis.cpp:544-562 | the two searches from empty tables complete the numbering |
| `PseudoTopoOrders.PseudoTopoOrder.TopoNodeHelper` | poly_PolyAnalysis.cpp:525-537 | the search terminates, numbers the block, and numbers nothing else but blocks that lead to it |
| `PseudoTopoOrders.PseudoTopoOrder.TopoLoopHelper` | poly_PolyAnalysis.cpp:488-503 | numbers exactly the loops inside a loop, then the loop |
| `PseudoTopoOrders.EveryBlock` | poly_PolyAnalysis.cpp:550-559 | starting from the blocks that only back edges leave reaches every block |
| `PseudoTopoOrders.EveryLoop` | poly_PolyAnalysis.cpp:488-503 | starting from the outermost loops reaches every loop |
| `PseudoTopoOrders.ProcessInOrder` | poly_PolyAnalysis.cpp:636-642 | the analysis under the order built for the CFG computes the least solution |
| `PseudoTopoOrders.IsBeforeMeans` | poly_PolyAnalysis.cpp:505-523 | no key is missing; blocks in loops first, then by block number |
| `PseudoTopoOrders.IsBeforeStrictTotal` | poly_PolyAnalysis.cpp:505-523 | the comparison is a strict total order, as the worklist needs |
| `PseudoTopoOrders.SourceBeforeSink` | poly_PolyAnalysis.cpp:505-523 | when the source of a non-back edge comes first, exactly |
| `QuickSort.HoleMoves` | otawa/include/elm/data/quicksort.h:40-41 | moving an element into the hole loses none |
| `QuickSort.Partition` | otawa/include/elm/data/quicksort.h:37-43 | the segment is permuted and cut at the pivot, nothing else changes |
| `QuickSort.DepthBound` | otawa/include/elm/data/quicksort.h:43-47 | a segment still to be split at depth k bounds 2^(k+1) by the length, so the stack holds at most 31 segments |
| `QuickSort.PartedStacked` | otawa/include/elm/data/quicksort.h:43-47 | splitting keeps the segments apart and halving, the smaller on top, and leaves less to do |
| `QuickSort.QuickSort` | otawa/include/elm/data/quicksort.h:29-53 | the array becomes a sorted permutation of itself for every total preorder |

## Left out

- HashTables.MyHTable: a bucket is a list of key/value pairs held by value, so the sharing of nodes between the table and an iterator is not modelled; the insertion order within a bucket is. Tables with repeated keys, which only `add` can produce, are excluded by `NoDuplicates`.
- Domains.PPLDomain: holds the identifier mapping as a map; `Mappings.Mapping` proves that the two hash tables are one. The `bounds` vector, the input/summary fields and `setBound` are not modelled.
- WPolys.WPoly.ExtrapolationAssign: only that the result contains the wider argument; how soon repeated extrapolation becomes stationary is the library's affair.
- Polyhedra.Ppl: what is asked of the library beyond `Lawful` is a hypothesis of the results that use it: a least hull (`Polyhedra.LeastHull`), minimized constraints (`BaseSelections.Minimizes`), maxima found (`LoopBounds.FindsMaxima`), one extremum reported for a constant (`AbstractStates.FindsFractions`, `AbstractStates.FindsConstants`).
- Merges.OnMerge: states whose identifiers are registers, specials and loop counters. What `_doUnify` does for memory cells (matching, folding, avatar creation, and the branches that mix values and avatars) is not modelled; `BaseSelections` and `Normalization` cover the parts it is built from.
- Memory.MemMergePlain: the choice of which cell a store may touch (aliasing, strong against weak update) is not modelled; the cell and the source are given.
- Domains.PPLDomain.OnSemInst: LOAD and STORE, `doIntegerWrap` (empty in the source), and the assertion on pending filters for instructions other than branches with no effect.
- Instructions.ConstraintExact: values are unbounded integers; 32-bit wrap-around of registers is not modelled, as the source does not model it either. Nothing is said of known shifts by 31 or more, for which C++ leaves the factor undefined.
- OrderedDrivers.ProcessCFG: the driver's own loop takes joins at loop headers, so its termination needs finite height; the widened header states are in `Headers`, and `Fixpoints.RunsHeld` and `Programs.ProgramCovered` hold for either. The nested analysis of called functions, and the vertex-wise `change` operations, which the client does not use.
- Headers.ProcessHeader: the loop bounds, linear bounds and instance counters it also computes; `LoopBounds` has the bound. How many visits a header needs is left with the library's widening.
- Headers.EqualStates: states of registers, specials and counters without scheduled variables; memory cells, summaries and the `bounds` vector are not compared. The two unifications are those of such states.
- StraightLines.ProductYields: for a shift by a known amount of an unmapped register, the high half of a product and operations on one unmapped register, the possible results are those of `CanYield` and have no closed form here.
- OrderedDrivers.OrderedDriver: `changeAll` clears the vector but not the bit set, and is not called.
- PseudoTopoOrders.PseudoTopoOrder: the CFG, its back edges and its loop-nesting forest are given; building them, and dominance, is not part of this model.
- LoopBounds.BoundExact: for a denominator of 2^64 or more the machine quotient is whatever the two cut words give; the condition compares it with the maximum, and there is no closed form.
- LoopBounds.GetLoopBound: the words are 64-bit `long` and 32-bit `int` in two's complement; other sizes are not modelled. The `bounds` vector, which hands the bound from the loop header to the exit, is not modelled either.
- Polyhedra internals (double description, minimisation, H79), the OTAWA loaders, `lca`, `delta`, `mayIntersect`, `onCompose`, summaries and linear loop bounds.
- `doKillRegisters`, the removal of avatars, stack and segment checks and initial memory contents.
- Printing, CSV and string export, and debug commands.
