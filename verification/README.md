# A verified model of the symbolic execution engine

This project models, in Dafny, the algorithmic core of a symbolic execution engine for SystemVerilog
and of three pieces of support code that the repository carries with it, and proves what they keep,
compute and restore. It has seven parts.

* **Symbolic store** (`WordText`, `SymbolicStore`, `StoreSubstitution`, `StoreSoundness`, `StoreOrder`,
  `StoreNonblocking`). Every variable maps to the text of an expression over initial values, which a
  reader over its characters gives a meaning (`ReadsExactly`); an assignment prints its right-hand side,
  blanks included, and replaces the store's variables in that text, one whole word at a time. Main
  results: replacing one at a time is simultaneous substitution exactly when the store is settled
  (`SimultaneousExactlyWhenSettled`); after any run whose compound assignments read settled stores every
  text means what executing the assignments one by one computes (`RunSound`), as it does whenever every
  name is set before it is read (`FreshRunSound`); in any other store some next assignment goes wrong
  (`NextStepsRightExactly`); and for a block of non-blocking assignments the result is right exactly if
  every surviving write reads what its names stood for at the start (`NonblockingRunExactly`).
* **Statement visitor and symbol walk** (`StatementVisits`, `VisitReports`, `StatementMeaning`,
  `StoreFreezing`, `StatementVisitor`, `SymbolGraph`, `SymbolDfs`). Solver scopes opened and closed
  along a statement tree, labels, reports, and the switch that ends a visit, with the statements for
  which nothing is written behind that switch described exactly; what a visit executes when the solver
  tells the truth about a valuation (`VisitMeans`); and a depth-first walk over a possibly cyclic graph
  of symbols, in exactly that order. The solver is an arbitrary predicate on its scope stack.
* **Control-flow graph** (`CfgLayout`, `CfgRecord`, `CfgMarks`, `CfgTuples`, `CfgBlocks`, `CfgPaths`,
  `CfgLaws`, `CfgSelection`, `Cfg`). A recursive walk that fills a node list, partition points and
  edges; block slices; renumbering; a path for every if/else body; branch directions read back from the
  block numbers along any path; and which block of the list a number selects (`NumberSelectsExactly`,
  `BranchesRunExactly`).
* **Ordered dictionary** (`AssocList`, `OrderedDict`). A circular doubly linked ring with a sentinel and
  two maps refines an association list, and any run of operations on that list is a plain map sorted by
  the time each key was born.
* **Freestanding C library** (`Numerals`, `Printf`, `PrintfImpl`, `PrintfFields`, `MemoryWords`). The
  format interpreter, digit generation and `atol`: what every conversion emits with any flags, width and
  precision, with the exact condition under which a printed number reads back; and `memcpy` and
  `memset`, whose word path equals their byte path even for overlapping regions.
* **Prefix expressions, their evaluation and the Z3 translation** (`SExpression`, `IntegerText`,
  `Z3Translate`). A tokenizer by textual replacement and a parser with a shared iterator are inverse to
  printing under an exact condition; a flat text of integers evaluates to its exact value modulo the
  register width; the bit-vector translation preserves meaning except for ten operators that it
  misreads.
* **Binary to hex to mem** (`Bin2Hex`, `HexWords`). What the files say to a reader; and three byte
  reversals that compose to the identity, or to a reversal of each half row, for exactly as many rows as
  fit an address of eight digits.

Objects that the source updates in place are classes with the same fields (`Visitor`, `SymbolicDFS`,
`Cfg`, `Dict`, `Node`, `TokenIterator`, `Sink`, `OutFile`), buffers are arrays, loops are loops, and
each such method is proved against a function whose properties are stated as lemmas. I/O, the solver,
the parsed syntax tree and variadic arguments are parameters.

## Findings

These are properties one would expect that the code does not have; each is stated exactly.

* A name that is read before it has an entry keeps its own name as text, and a later assignment to it
  captures that text: after `xx = y; y = 5` the text of `z = xx + 1` is a sum with 5
  (`ReadBeforeSetIsCaptured`). In the code's own order, longest names first and ties in the order of
  first assignment, a store is safe for every next assignment exactly if no value mentions a name that
  is replaced behind it by something else (`NextVisitsRightExactly`); however ties are broken, exactly
  if no value mentions another variable, with a name no longer than its own, whose entry would still
  change it (`NextStepsRightExactly`). The two differ (`TieIsSafe`).
* Non-blocking assignments are applied at once, like blocking ones: `a <= b; b <= a` leaves both at the
  value of b (`SwapIsLost`). A run over settled stores is right for a clocked block exactly if every
  write that survives reads only names that, at its turn, stand for what they stood for at the start
  (`OneByOneIsAtOnceExactly`, `NonblockingRunExactly`).
* `partition` does not produce the blocks of its own documentation: interior partition points belong to
  no block, so the first statement of a branch is dropped (`ThenStartKept`, `ElseStartKept`), and the
  block numbers of `find_basic_block` run past the block list as soon as there is a conditional above
  index 0 (`ConditionalLosesBlock`). The documentation of `find_basic_block` gives the number of a later
  block as its index in the sorted points; the code returns one less.
* Numbers inside the range select the wrong block as well. A point behind the first two never gets the
  number of a block that holds it, unless it is the last (`HoldsPointExactly`), and gets the number of
  the block right behind it exactly if one pair of neighbouring points lies below it and the next index
  is no interior point (`NumberSelectsExactly`). So of conditionals above index 0 only the first selects
  its branches; every later one runs another stretch or none (`LaterConditionalSelectsWrong`), and its
  own condition is in no block (`ConditionalKept`). Of `if (a) ... else ...` followed by `if (b) ...
  else ...`, the true edge of the second runs the end of its else-branch (`SecondConditionalGoesWrong`).
* If the first node is a conditional, as in an always block that is one if/else, its false edge runs the
  rest of the then-branch, unless that has one statement only (`FirstFalseEdgeRunsThen`).
* An if/else body has both branches of all its conditionals run exactly if it has one conditional at
  most, which is not the first node and has two slots or more in either branch (`BranchesRunExactly`).
  Even then the first statement of each branch is in no block, and what follows the conditional is in
  the block of its else-branch, so that a path through the true edge leaves it out
  (`OneConditionalBlocks`).
* A conditional's condition is asserted as it stands whatever the direction: on the path of its false
  branch the visitor is switched off exactly when the condition is false (`ConditionalExactly`). The
  symbol walk also has both branches under the condition itself (`SymbolicDFS.DfsStmt`).
* A case whose subject is a truth value ignores its labels (`LabelsComparedExactly`).
* A tuple of independent branch points also holds those of every earlier block of the same depth, in
  another branch as well (`TupleMembersExactly`, `BranchesShareTuple`); it holds points of its own block
  only exactly if no earlier block as deep lists a branching statement (`TupleIsOwnExactly`). Only its
  first two entries become an edge (`MakePaths`).
* A conditional at node index 0 has its true edge mapped to a loop on block 0, which reads as direction
  0 and lies on no path (`ConditionalBlocks`, `TrueEdgeReadExactly`, `FirstTrueEdgeOnNoPath`).
* A field padded with dashes, or with blanks behind a sign, does not read back
  (`SignedRoundTripExactly`), and a precision written as 0 acts as the zero flag instead of cutting the
  string, which every other precision does as it should (`CutsExactly`). Characters are never padded
  (`CharField`), and a field that ends in no conversion is printed as text although its stars have used
  up arguments (`UnknownField`).
* `parser_helper` drops a bare `<`; two or more blanks of its own in front of an atom or a parenthesised
  operand, or before a closing parenthesis, leave an empty item; a parenthesised expression with a blank
  in front, and a lone atom that is not all letters, such as `b_1` or `5`, parse to None
  (`RoundTripExactly`).
* `!==`, `**`, `^~`, `~^`, `->`, `<->` and the four shifts reach the wrong Z3 operator
  (`DispatchExactly`), and an identifier whose stored text is compound becomes one unconstrained symbol
  (`EntryFollowsExactly`).
* Rows narrower than 128 bits keep their newline on the way from mem to hex (`ThroughMemExactly`), and
  row 2^32 of a hex file no longer fits the fixed columns (`ThroughHexExactly`).

## Model

| member | source | states |
|---|---|---|
| WordText.ReplaceConcat | helpers/slang_helpers.py:31-35 | Replacing a whole word in a concatenation replaces it in each part, wherever the seam does not run through a word |
| WordText.ReplaceInWord | helpers/slang_helpers.py:31-35 | A lone identifier is replaced exactly when it is the name, never when the name is only part of it |
| WordText.ReplaceInSeparator | helpers/slang_helpers.py:31-35 | Text without word characters is never touched |
| SymbolicStore.ReadsExactly | helpers/rvalue_parser.py:25-87 | A reader that goes through the characters of a text, parentheses, blanks, operators and words, reads it as an expression if and only if the text is what the printer makes of that expression: operators and operands come back unchanged and in their places |
| SymbolicStore.PrintUnique | helpers/rvalue_parser.py:25-87 | The infix text of an expression, blanks before operators and literals included, has one reading: no two well-formed expressions share a text |
| StoreSubstitution.ReplacePrint | helpers/slang_helpers.py:29-35 | One textual whole-word replacement on a printed expression is one substitution on its tree |
| StoreSubstitution.OneAtATimeIsSimultaneous | helpers/slang_helpers.py:12-37 | Along an order in which no inserted value mentions a variable that is still to be replaced, replacing the variables one at a time is simultaneous substitution |
| StoreSubstitution.SimultaneousExactlyAlong | helpers/slang_helpers.py:24-35 | For any store of printed expressions and any one order: every text is substituted simultaneously if and only if no inserted value mentions a variable behind it that would still change it |
| StoreSubstitution.SimultaneousExactlyWhenSettled | helpers/slang_helpers.py:24-35 | Every text is substituted simultaneously under every longest-first order, ties included, if and only if no value mentions another variable, with a name no longer than its own, whose entry would change it |
| StoreSubstitution.SubstituteSymbols | helpers/slang_helpers.py:12-37 | The loop replaces every variable of the store once, longest name first; on the text of an expression over a settled store the result is the text of simultaneous substitution |
| StoreSoundness.Visitor.VisitAssignment | helpers/slang_helpers.py:676-723 | The blocking and non-blocking cases: name copied, literal stored, or printed and substituted text; a left side without identifier changes nothing |
| StoreSoundness.Visitor.VisitBlock | helpers/slang_helpers.py:676-723 | Visiting assignments in order is a run of the step relation from the old store to the new one |
| StoreSoundness.StepSound | helpers/slang_helpers.py:676-723 | One assignment, taken by itself: a copied name or a literal always, and a compound right-hand side over a settled store, keeps every stored text denoting the concrete value of its variable |
| StoreSoundness.PrintDenotesExactly | helpers/rvalue_parser.py:25-87 | Read character by character, the text of an expression denotes the value of that expression under any meaning and valuation, and no other value |
| StoreSoundness.RunSound | helpers/slang_helpers.py:676-723 | After any run whose compound assignments read settled stores, each stored text, read character by character, is an expression over initial values, and under every valuation of them and every meaning of the operators it evaluates to what running the assignments one by one, as blocking ones, gives; names never set have their initial value |
| StoreSoundness.FreshRunSound | helpers/slang_helpers.py:676-723 | From a store of fresh symbols, a run that reads only names that are set by then keeps every store settled, so the same holds for it |
| StoreSoundness.NextStepsRightExactly | helpers/slang_helpers.py:676-697 | A store keeps its meaning under every next assignment, however ties of the sort are broken, if and only if it is settled |
| StoreOrder.StableKeepsTies | helpers/slang_helpers.py:24-27 | The sort by length keeps names of one length in the order in which they were inserted |
| StoreOrder.VisitAllSound | helpers/slang_helpers.py:676-723 | In the order of that sort: after any run whose compound assignments read stores settled along it, the texts evaluate to what running the assignments one by one, as blocking ones, gives |
| StoreOrder.NextVisitsRightExactly | helpers/slang_helpers.py:676-697 | In that order a store keeps its meaning under every next assignment if and only if no value mentions a name that is replaced behind it by something else |
| StoreOrder.TieIsSafe | helpers/slang_helpers.py:24-35 | After `c = a; a = m; b = c; c = n` with names of one length the store is settled in the order of the code, though not for every tie-break |
| StoreSoundness.ReadBeforeSetIsCaptured | helpers/slang_helpers.py:680-697 | In every run of `xx = y; y = 5; z = xx + 1` from an empty store the text of z does not denote the value that running the program gives z |
| StoreNonblocking.OneByOneIsAtOnceExactly | helpers/slang_helpers.py:699-723 | Executing a block of assignments one by one gives what reading all right-hand sides first gives if and only if every write that survives reads only names that stand, at its turn, for what they stood for at the start |
| StoreNonblocking.OneByOneIsAtOnce | helpers/slang_helpers.py:699-723 | If those names are unset by then or still stand for themselves, the two agree for every meaning of the operators, every valuation and every start |
| StoreNonblocking.NonblockingRunSound | helpers/slang_helpers.py:699-723 | Then the stored texts after a run of a clocked block evaluate to what its non-blocking meaning gives |
| StoreNonblocking.NonblockingRunExactly | helpers/slang_helpers.py:699-723 | A run over settled stores leaves texts that denote the non-blocking meaning if and only if the condition above holds from its start |
| StoreNonblocking.SwapIsLost | helpers/slang_helpers.py:699-723 | Every run of `a <= b; b <= a` leaves both with the text of b, which does not denote the old value of a |
| AssocList.RunIsSortedByBirth | designs/benchmarks/hackatdac18/hackatdac18-2018-soc/ipstools/ipstools/ordereddict.py:36-77 | After any sequence of set, delete, popitem and clear the item list is the plain map of the same run, sorted by the time each key last became present, with last written values |
| AssocList.SortedByBirthUnique | designs/benchmarks/hackatdac18/hackatdac18-2018-soc/ipstools/ipstools/ordereddict.py:36-77 | At most one list is sorted by birth, so insertion order is determined by the map and the birth times |
| AssocList.StampRunExists | designs/benchmarks/hackatdac18/hackatdac18-2018-soc/ipstools/ipstools/ordereddict.py:36-77 | Every sequence of operations has such a stamped run |
| AssocList.DeleteThenSetMovesToEnd | designs/benchmarks/hackatdac18/hackatdac18-2018-soc/ipstools/ipstools/ordereddict.py:42-53 | Deleting a key and setting it again moves it to the end and keeps the order of the others |
| AssocList.PutPresent | designs/benchmarks/hackatdac18/hackatdac18-2018-soc/ipstools/ipstools/ordereddict.py:42-47 | Overwriting keeps the position |
| AssocList.PutAllFresh | designs/benchmarks/hackatdac18/hackatdac18-2018-soc/ipstools/ipstools/ordereddict.py:106-114 | Inserting pairs with new distinct keys one by one gives them in their order |
| OrderedDict.Dict.constructor | designs/benchmarks/hackatdac18/hackatdac18-2018-soc/ipstools/ipstools/ordereddict.py:27-34 | A new dictionary is a ring of one fresh sentinel and holds nothing |
| OrderedDict.Dict.Clear | designs/benchmarks/hackatdac18/hackatdac18-2018-soc/ipstools/ipstools/ordereddict.py:36-40 | A fresh sentinel replaces the ring and nothing is left |
| OrderedDict.Dict.SetItem | designs/benchmarks/hackatdac18/hackatdac18-2018-soc/ipstools/ipstools/ordereddict.py:42-47 | The relinked ring and the two maps stay consistent and hold the old items with the pair overwritten in place or appended |
| OrderedDict.Dict.DelItem | designs/benchmarks/hackatdac18/hackatdac18-2018-soc/ipstools/ipstools/ordereddict.py:49-53 | The key is unlinked, the order of the others kept; a missing key is reported and changes nothing |
| OrderedDict.Dict.Iter | designs/benchmarks/hackatdac18/hackatdac18-2018-soc/ipstools/ipstools/ordereddict.py:55-60 | Following the next links ends and yields the keys in insertion order |
| OrderedDict.Dict.Reversed | designs/benchmarks/hackatdac18/hackatdac18-2018-soc/ipstools/ipstools/ordereddict.py:62-67 | Following the prev links yields the same keys reversed |
| OrderedDict.Dict.PopItem | designs/benchmarks/hackatdac18/hackatdac18-2018-soc/ipstools/ipstools/ordereddict.py:69-77 | The item at the chosen end is returned and removed; an empty dictionary reports a KeyError |
| OrderedDict.Dict.PerformAll | designs/benchmarks/hackatdac18/hackatdac18-2018-soc/ipstools/ipstools/ordereddict.py:36-77 | Any sequence of operations in place refines the same sequence on association lists |
| OrderedDict.Dict.Copy | designs/benchmarks/hackatdac18/hackatdac18-2018-soc/ipstools/ipstools/ordereddict.py:106-107 | A new dictionary, sharing no node, has the same item sequence |
| OrderedDict.Dict.FromKeys | designs/benchmarks/hackatdac18/hackatdac18-2018-soc/ipstools/ipstools/ordereddict.py:109-114 | Exactly the given keys, each once, in the order of their first occurrence, all with the given value |
| OrderedDict.Equal | designs/benchmarks/hackatdac18/hackatdac18-2018-soc/ipstools/ipstools/ordereddict.py:116-124 | Two ordered dictionaries are equal if and only if their item sequences are, order included |
| CfgLayout.LayoutIsPreorder | engine/cfg.py:263-364 | For every statement tree the node list without its dummies is the preorder of the statements, each exactly once |
| CfgLayout.LayoutInPlace | engine/cfg.py:217-261 | Every conditional at p has its then-branch in exactly the slots p+1 to q and its else-branch from q on |
| CfgLaws.SlotsExactly | engine/cfg.py:217-364 | The node list has one slot for every statement and one dummy for every branch without a statement |
| CfgLaws.EdgesExactly | engine/cfg.py:233-261 | The edges that conditionals own: from a conditional at p to p+1 and to the index right behind its then-branch, once each, and no others; edges between independent branch points are counted apart |
| CfgLaws.PointsExactly | engine/cfg.py:225-385 | An index is a partition point if and only if it is 0, the last one, the index of a conditional, a case or a for, or the start of a branch of a conditional |
| CfgRecord.AfterConcat | engine/cfg.py:263-364 | Walking one part after another records what walking their concatenation records |
| CfgRecord.CondSteps | engine/cfg.py:217-261 | The steps of one conditional, whatever its branches, add up to its part of the layout |
| CfgMarks.TupleMembersExactly | engine/cfg.py:102-110 | A tuple of independent points holds exactly the conditionals, cases and for loops that blocks list at its depth and that were laid out before its block ended, those of earlier blocks of the same depth included |
| CfgTuples.TupleMadeExactly | engine/cfg.py:318-342 | There is a tuple with a given depth, start and end if and only if a block on its own has them and two branching statements that blocks list at that depth were laid out before its end |
| CfgMarks.TupleIsOwnExactly | engine/cfg.py:102-110 | A tuple holds points of its own block only if and only if no block before it, and as deep, lists a branching statement |
| CfgMarks.BranchesShareTuple | engine/cfg.py:102-110 | In an if/else whose branches are blocks of two loops each, the tuple of the else-block names the loops of the then-block as well |
| Cfg.Cfg.BasicBlocks | engine/cfg.py:263-364 | The walk keeps the index counter equal to the node count, restores the block stack, appends exactly the layout of the tree with its points and edges, and remembers and joins exactly the independent branch points that the tree names |
| Cfg.Cfg.ProcessConditional | engine/cfg.py:217-261 | The same for one conditional, else-if chains included |
| Cfg.Cfg.Resolve | engine/cfg.py:103-110 | Two or more points of one depth become one edge that lists exactly them, each once; fewer become none, and the rest of the record stays |
| CfgBlocks.NextRankIsNextIndex | engine/cfg.py:412-443 | Among the sorted points, the one right behind p is p+1 whenever p+1 is a point |
| CfgBlocks.RankFound | engine/cfg.py:419-440 | The last sorted point at or below an index determines how many points lie below that index |
| CfgBlocks.SlicesOrdered | engine/cfg.py:385-410 | The basic blocks are non-empty, ordered and disjoint |
| CfgBlocks.SlicesCover | engine/cfg.py:385-410 | Together they hold a node if and only if it is not a partition point strictly between the second and the last |
| CfgBlocks.BlockCount | engine/cfg.py:385-443 | The last block number is in the range of the block list if and only if no two interior points are neighbours |
| CfgPaths.ConditionalBlocks | engine/cfg.py:412-451 | For a conditional above index 0 in block b the true edge goes to b+1 and the false edge to at least b+2; at index 0 the true edge is a loop on block 0 |
| CfgPaths.DirectionIsTrueEdge | engine/cfg.py:93-101 | Whatever edge leaves the block of a conditional above index 0 is read as direction 1 if and only if it leads to the then-branch |
| CfgPaths.TrueEdgeReadExactly | engine/cfg.py:93-101 | The true edge is read as 1 if and only if the conditional is not the first node |
| CfgPaths.FalseEdgeReadExactly | engine/cfg.py:93-101 | The false edge is read as 0 if and only if the conditional is not the first node or some point lies inside its then-branch |
| CfgPaths.ThenStartKept | engine/cfg.py:385-410 | The first statement of a then-branch is in some block if and only if its conditional is the first node |
| CfgPaths.ElseStartKept | engine/cfg.py:385-410 | The first statement of an else-branch is in some block if and only if it is the last node |
| CfgPaths.ConditionalLosesBlock | engine/cfg.py:385-443 | One conditional above index 0 already leaves the last block number without a block |
| CfgPaths.PathExists | engine/cfg.py:445-506 | For every body whose only branching is if/else, in whatever order independent branch points are listed, there is a simple path from the dummy start to the dummy end |
| CfgLaws.SimplePathsExactly | engine/cfg.py:479-506 | The simple paths between the dummies are exactly the runs from block 0 along block edges, no block twice, that end where some edge leads and none goes on, or at block 0 if there are no edges |
| CfgPaths.PathDirections | engine/cfg.py:93-101 | On any simple path of such a body that does not start with a conditional, every step is read as direction 1 if and only if it takes the edge to a then-branch, whatever block the number then selects |
| CfgPaths.FirstTrueEdgeOnNoPath | engine/cfg.py:412-451 | If the first node is a conditional, no simple path takes its true edge |
| CfgSelection.SelectsNextSliceExactly | engine/cfg.py:385-443 | The number of an interior sorted point selects the slice right behind it if and only if that slice is not empty and exactly one slice before it is |
| CfgSelection.HoldsPointExactly | engine/cfg.py:412-443 | The block with the number of a sorted point holds that point if and only if it is one of the first two, or the last and no slice is empty |
| CfgSelection.NumberSelectsExactly | engine/cfg.py:385-443 | In terms of points: the number of an interior point selects the block that begins right behind it if and only if exactly one pair of neighbouring points above 0 lies below it and the next index is no interior point |
| CfgSelection.TrueEdgeSelectsExactly | engine/cfg.py:385-451 | The true edge of a conditional above index 0 selects the block behind its target if and only if no such pair lies below the conditional and the block is not empty; at index 0 it selects block 0, nodes 0 and 1 |
| CfgSelection.FalseEdgeSelectsExactly | engine/cfg.py:385-451 | The false edge of any conditional selects the block behind its target if and only if one such pair lies below the target and that block is not empty, and above index 0 the pair is the conditional's own; a target that is the last node is held by its block if and only if no pair lies below it, any other never |
| CfgSelection.LaterConditionalSelectsWrong | engine/cfg.py:385-451 | Behind a conditional above index 0, neither edge of any later one selects the block behind its target or the one that holds it |
| CfgSelection.ConditionalKept | engine/cfg.py:385-410 | The statement of a conditional lies in some block if and only if no partition point lies between index 0 and it |
| CfgSelection.TrueEdgeOfIfElse | engine/cfg.py:385-451 | In an if/else body that starts with another statement, a true edge selects the block behind its target if and only if its conditional is the first and the block is not empty |
| CfgSelection.FalseEdgeOfIfElse | engine/cfg.py:385-451 | In any if/else body a false edge does if and only if the block is not empty and, in a body that starts with another statement, its conditional is the only one up to the else-branch and the then-branch has more than one slot; in one that starts with a conditional, one pair of neighbouring points lies below the else-branch |
| CfgSelection.TrueBlockEndsExactly | engine/cfg.py:395-405 | The block so selected by a true edge ends no later than the then-branch if and only if another interior point follows |
| CfgSelection.BranchesRunExactly | engine/cfg.py:385-506 | For every if/else body: all conditionals select blocks of both their branches, each holding some of its branch, if and only if there is one conditional at most, not the first node, with two slots or more in either branch |
| CfgSelection.OneConditionalBlocks | engine/cfg.py:370-410 | Such a body is cut into what comes before the branches, the then-branch, and the else-branch with all that follows, each branch without its first slot, and the numbers 0, 1 and 2 select these |
| CfgSelection.FirstFalseEdgeRunsThen | engine/cfg.py:385-451 | If node 0 is the only conditional before its else-branch, its false edge has number 1, the rest of a then-branch of two slots or more, and it selects the block behind its target if and only if the then-branch has one slot and that block is not empty |
| CfgSelection.SecondConditionalGoesWrong | engine/cfg.py:385-451 | Of two conditionals in a row the second has its true edge select the end of its else-branch and its false edge a number without a block |
| Cfg.Cfg.Partition | engine/cfg.py:370-410 | The blocks are the slices of the node list at the sorted points, the last index included; empty slices are left out |
| Cfg.Cfg.FindBasicBlock | engine/cfg.py:412-443 | A partition point of rank r gets block max(0, r-1); what any other index gets is determined by its rank |
| Cfg.Cfg.MakePaths | engine/cfg.py:445-451 | Every node edge becomes the edge between the block numbers of its ends, in order; a longer tuple gives the edge between its first two entries |
| Cfg.Cfg.FindLeaves | engine/cfg.py:453-457 | A block is a leaf if and only if some edge ends in it and no edge starts in it |
| Cfg.Cfg.BuildCfg | engine/cfg.py:465-503 | The graph gets exactly the block edges, one from the dummy start to block 0, one from every leaf to the dummy end, and one from block 0 to it if there are no edges |
| Cfg.Cfg.ComputeDirection | engine/cfg.py:93-101 | One direction for each step between the dummies of a path |
| Cfg.DirectionsOf | engine/cfg.py:93-101 | The directions of such a path are 1 exactly at the steps that take a true edge |
| Cfg.BuildFor | engine/cfg.py:263-506 | The pipeline for one body: layout, tuples, slices, block edges, leaves and graph as above, and a path for every if/else body |
| Numerals.DigitsLength | designs/benchmarks/hackatdac21/design/hackatdac21/software/syscalls.c:258-267 | A number below base^k has at most k digits |
| Numerals.DigitsPositional | designs/benchmarks/hackatdac21/design/hackatdac21/software/syscalls.c:258-273 | In every base from 2 to 36 the positional value of the digits written is the number |
| Numerals.PaddedPositional | designs/benchmarks/hackatdac21/design/hackatdac21/software/syscalls.c:241-274 | Zero padding up to a width does not change that value, as in the sixteen digits of printhex |
| Numerals.SignedRoundTripExactly | designs/benchmarks/hackatdac21/design/hackatdac21/software/syscalls.c:549-568 | atol of a padded signed number is that number if and only if there is no padding, the padding is zeros, it is blanks before a number without sign, or it is the lone dash before zero |
| Numerals.AtolReads | designs/benchmarks/hackatdac21/design/hackatdac21/software/syscalls.c:549-568 | atol reads every decimal text as its positional value, with any blanks in front, with a plus, a minus or no sign, and with leading zeros |
| PrintfImpl.GenerateDigits | designs/benchmarks/hackatdac21/design/hackatdac21/software/syscalls.c:258-267 | Never more than 64 digits are stored for a 64-bit number in any base, and backwards they are its digits |
| PrintfImpl.Printnum | designs/benchmarks/hackatdac21/design/hackatdac21/software/syscalls.c:255-274 | The digits of the number, most significant first, behind padding up to the width |
| PrintfImpl.Printhex | designs/benchmarks/hackatdac21/design/hackatdac21/software/syscalls.c:241-253 | What printnum writes in base 16, width 16, padded with zeros |
| PrintfImpl.Strnlen | designs/benchmarks/hackatdac21/design/hackatdac21/software/syscalls.c:521-527 | The length, cut off at the limit; a negative precision is no limit |
| PrintfImpl.PutString | designs/benchmarks/hackatdac21/design/hackatdac21/software/syscalls.c:381-393 | The loops of the string directive emit its padding and characters |
| PrintfImpl.RunDirective | designs/benchmarks/hackatdac21/design/hackatdac21/software/syscalls.c:315-443 | The switch with its restarts ends and does what one directive means, with the position and arguments that follow |
| PrintfImpl.VPrintFmt | designs/benchmarks/hackatdac21/design/hackatdac21/software/syscalls.c:296-445 | The format loop ends on every format, never passes its end, and emits what the format means; it stops only at a directive whose argument is missing |
| PrintfImpl.Sprintf | designs/benchmarks/hackatdac21/design/hackatdac21/software/syscalls.c:458-476 | The buffer receives exactly that text and the result is its length |
| PrintfImpl.Atol | designs/benchmarks/hackatdac21/design/hackatdac21/software/syscalls.c:549-568 | The loop computes the value of the text: blanks skipped, one sign, then every character as a digit |
| PrintfFields.DirectiveIsLocal | designs/benchmarks/hackatdac21/design/hackatdac21/software/syscalls.c:315-443 | A recognised directive depends on nothing outside its own text |
| PrintfFields.TextSurvives | designs/benchmarks/hackatdac21/design/hackatdac21/software/syscalls.c:305-312 | Every format is cut in order into characters emitted unchanged and complete directives replaced by what they emit for the arguments that remain there; a percent sign is copied only where no directive is recognised |
| PrintfFields.UnsignedField | designs/benchmarks/hackatdac21/design/hackatdac21/software/syscalls.c:330-431 | A field with u, o or x anywhere in a format, with any flags, any width and precision, written or given by a star, and any further arguments, is the low 32 bits of its argument, or 64 with a long flag, in base 10, 8 or 16 without leading zeros, behind the padding that the last pad flag asks for |
| PrintfFields.SignedField | designs/benchmarks/hackatdac21/design/hackatdac21/software/syscalls.c:330-431 | A field with d likewise is the number that those bits stand for in two's complement, its sign in front of the padding, and atol reads it back exactly under the condition above |
| PrintfFields.PointerField | designs/benchmarks/hackatdac21/design/hackatdac21/software/syscalls.c:416-431 | A field with p is always the low 64 bits in base 16 behind 0x, the padding in between |
| PrintfFields.CharField | designs/benchmarks/hackatdac21/design/hackatdac21/software/syscalls.c:377-379 | A field with c is one character, the low byte of its argument, whatever width was asked for |
| PrintfFields.LongRoundTrip | designs/benchmarks/hackatdac21/design/hackatdac21/software/syscalls.c:396-403 | atol of what %ld writes is the number, for every 64-bit number |
| PrintfFields.StringField | designs/benchmarks/hackatdac21/design/hackatdac21/software/syscalls.c:381-393 | A string field anywhere in a format, with any flags, width N and precision P, emits max(N, n) characters, n = min(length, P) unless P is negative, missing or written as 0: the first n of the string, with the padding before them, or behind them after a dash |
| PrintfFields.PercentField | designs/benchmarks/hackatdac21/design/hackatdac21/software/syscalls.c:433-436 | A second percent sign stands for one, behind any flags, width and precision |
| PrintfFields.UnknownField | designs/benchmarks/hackatdac21/design/hackatdac21/software/syscalls.c:438-442 | A field that ends in no conversion is printed as it stands, from its percent sign on, but its stars have taken their arguments |
| PrintfFields.ZeroPrecisionReadsBack | designs/benchmarks/hackatdac21/design/hackatdac21/software/syscalls.c:330-332 | A precision written as 0 is taken for the zero flag, whatever pad flag came before, so that a number field always reads back |
| PrintfFields.CutsExactly | designs/benchmarks/hackatdac21/design/hackatdac21/software/syscalls.c:330-393 | For all flags and widths, a precision P of 0 or more makes every string field hold its first min(length, P) characters with the pad asked for if and only if it is not a written 0; given by a star, 0 cuts as well |
| MemoryWords.ReplicatedBytes | designs/benchmarks/hackatdac21/design/hackatdac21/software/syscalls.c:497-500 | The shift-or sequence puts the low byte into all eight bytes of the word |
| MemoryWords.WordRoundTrip | designs/benchmarks/hackatdac21/design/hackatdac21/software/syscalls.c:480-484 | Loading eight bytes as a word and storing it keeps them |
| MemoryWords.FilledAt | designs/benchmarks/hackatdac21/design/hackatdac21/software/syscalls.c:506-508 | Setting byte by byte changes exactly the given range |
| MemoryWords.Memset | designs/benchmarks/hackatdac21/design/hackatdac21/software/syscalls.c:494-511 | For every address and length the word path and the byte path both leave what setting byte by byte leaves |
| MemoryWords.CopyMore | designs/benchmarks/hackatdac21/design/hackatdac21/software/syscalls.c:480-490 | As long as the destination is not ahead of the source by less than the chunk, copying a chunk at once is copying it byte by byte |
| MemoryWords.Memcpy | designs/benchmarks/hackatdac21/design/hackatdac21/software/syscalls.c:478-492 | For every pair of addresses, overlapping or not, the word path and the byte path both leave what copying forwards byte by byte leaves |
| MemoryWords.CopiedAt | designs/benchmarks/hackatdac21/design/hackatdac21/software/syscalls.c:486-489 | Which source byte every byte of memory ends with, overlap included |
| MemoryWords.CopiesExactly | designs/benchmarks/hackatdac21/design/hackatdac21/software/syscalls.c:478-492 | For all contents the destination ends as the source began if and only if it does not start inside the source |
| SymbolGraph.TargetsExactly | helpers/slang_helpers.py:590-608 | The walk goes from a symbol to exactly its children and, unless it is a procedural block, its body |
| SymbolDfs.SymbolicDFS.Dfs | helpers/slang_helpers.py:562-608 | On any finite graph, cycles included, the walk ends, adds only what the symbol reaches, leaves no edge out of what it added, handles symbols in depth-first order, and restores the path condition |
| SymbolDfs.SymbolicDFS.DfsStmt | helpers/slang_helpers.py:610-639 | Every expression of a statement is seen once the path condition holds exactly the conditions around it, both branches of a conditional under the condition itself, and the path condition is what it was in the end |
| SymbolDfs.FinishSymbol | helpers/slang_helpers.py:562-608 | Marking a symbol and walking its children and body is a complete walk of that symbol |
| SymbolDfs.WholeWalk | helpers/slang_helpers.py:562-608 | A walk from nothing has visited exactly what the root reaches |
| SymbolDfs.Discover | helpers/slang_helpers.py:553-608 | From empty state: exactly the reachable symbols are processed, each once and in depth-first order, children before the body; a name is in the store if and only if a reachable variable, parameter, port or net has it, with the last one processed that does |
| StatementVisits.Visit | helpers/slang_helpers.py:781-1061 | Every visit, on every exit and for every solver, leaves the scope stack as it found it |
| StatementVisits.Check | helpers/slang_helpers.py:1063-1392 | So does every assertion handler |
| VisitReports.VisitReports | helpers/slang_helpers.py:781-1392 | The visitor is switched off if and only if some guard was refused, and abandons with it; it reports exactly the assertions whose negation was accepted; labels only grow; the caller's scopes lie under everything asked |
| VisitReports.ScriptFollowed | helpers/slang_helpers.py:781-1061 | A visit that is not switched off makes exactly the assignments and asks exactly the questions that the statement lists, in order, the extra question before each tracked guard included |
| StatementMeaning.VisitMeans | helpers/slang_helpers.py:781-1061 | If the solver tells the truth about a valuation of all formulas, a visit comes to executing the statement under it: while conditions and case labels must come out as the direction says, a conditional's condition must hold in either direction, and a failing one ends the visit; assertions whose condition is zero are reported |
| StatementMeaning.CaseLabelExactly | helpers/slang_helpers.py:922-1006 | Where subject and label are formulas and the subject no truth value, the body of a label is visited in direction true if and only if the two have equal values, in direction false if and only if they differ |
| StatementMeaning.LabelsComparedExactly | helpers/slang_helpers.py:942-963 | Those are exactly the labels that are compared: a subject that is a truth value is asserted itself whatever the label, and without a formula nothing is |
| StatementMeaning.WhileExactly | helpers/slang_helpers.py:873-911 | The body of a while loop is visited, once, if and only if its condition comes out as the direction says |
| StatementMeaning.ConditionalExactly | helpers/slang_helpers.py:810-858 | A conditional lets the visitor go on if and only if its condition holds, in direction false as well |
| StatementMeaning.BranchesCounted | helpers/slang_helpers.py:781-1006 | For every solver a visit that is not switched off counts every conditional, while, do-while and case on its way, a case body once for each label, and no visit counts more |
| StoreFreezing.StoreKept | helpers/slang_helpers.py:787-1061 | In a statement in which no assigning expression is visited behind a guarded part, nothing is written from the moment ignore is set |
| StoreFreezing.StoreKeptExactly | helpers/slang_helpers.py:787-1061 | Nothing is written behind that moment, in every state and for every solver, if and only if the statement is of that kind |
| StoreFreezing.StorePlaysPart | helpers/slang_helpers.py:781-1061 | The store that such a statement leaves is that after some first part of the assignments it lists, also when it was switched off |
| StatementVisitor.Visitor.DoStmt | helpers/slang_helpers.py:781-1061 | The visitor that updates its fields in place does what the function on states says |
| StatementVisitor.Visitor.CheckAssertion | helpers/slang_helpers.py:1081-1119 | So does the common part of the assertion handlers |
| SExpression.TokenizePrint | helpers/rvalue_parser.py:231-238 | Tokenizing a printed tree gives its atoms and parentheses in order, and one empty token for every second blank of its own in front of an atom or a tuple or before a closing parenthesis |
| SExpression.HelperReadsTuple | helpers/rvalue_parser.py:253-265 | Behind an opening parenthesis the helper returns the items, surplus blanks as empty ones, and the shared iterator stops exactly behind the matching one |
| SExpression.ParsePrint | helpers/rvalue_parser.py:231-265 | Printing, tokenizing and parsing a tuple gives a one-element list with the tree as the helper sees it: all-digit atoms as integers, bare less-than atoms gone, empty items for surplus blanks; a tuple with a blank in front gives None, and a lone atom itself or None |
| SExpression.RoundTripExactly | helpers/rvalue_parser.py:231-265 | For every printed tree: it comes back, its blanks gone and its all-digit atoms integers, if and only if, as a tuple, it has no blank in front, no bare less-than atom and nowhere two blanks of an item's own, or, as a lone atom, it is all letters without a blank |
| SExpression.TokenIterator.ParserHelper | helpers/rvalue_parser.py:253-265 | The recursive calls that share one iterator return, and leave it where, the recursive reading of the tokens says |
| SExpression.ParseTokens | helpers/rvalue_parser.py:240-251 | The list that the outer loop builds |
| IntegerText.StrToInt | helpers/rvalue_parser.py:597-617 | Without a division the result is the exact unreduced result modulo the width, and None exactly where an operand is missing or no integer; the first token must be all digits |
| IntegerText.ExactFailsExactly | helpers/rvalue_parser.py:602-617 | That walk fails if and only if some operator has no integer behind it |
| IntegerText.SplitJoins | helpers/rvalue_parser.py:598 | The tokens hold no blank and, with single blanks between them, are the text |
| IntegerText.DecimalOfDigits | helpers/rvalue_parser.py:601-607 | A token of digits has the value of the number that it writes |
| IntegerText.FlatTextExact | helpers/rvalue_parser.py:597-617 | A flat text of numbers joined by +, - and * is walked without a failure to its value from left to right |
| IntegerText.FlatToInt | helpers/rvalue_parser.py:597-617 | So str_to_int gives that value modulo the width, although only the operands are reduced along the way |
| Bin2Hex.GroupsCover | designs/benchmarks/hackatdac21/design/hackatdac21/pk/freedom-bin2hex.py:18-22 | Grouping keeps every byte in order and adds fewer than n zeros at the end |
| Bin2Hex.RowTextPair | designs/benchmarks/hackatdac21/design/hackatdac21/pk/freedom-bin2hex.py:46-48 | The hexadecimal pairs of a row stand in reverse order of its bytes |
| Bin2Hex.ConvertBin | designs/benchmarks/hackatdac21/design/hackatdac21/pk/freedom-bin2hex.py:41-50 | The loop over rows writes one numbered line for each |
| Bin2Hex.ConvertMem | designs/benchmarks/hackatdac21/design/hackatdac21/pk/freedom-bin2hex.py:57-64 | The loop over lines writes one numbered line for each |
| HexWords.MemFileSays | designs/benchmarks/hackatdac21/design/hackatdac21/pk/freedom-bin2hex.py:24-50 | Every line of a mem file, for rows of any width, is its row as one little-endian hexadecimal number |
| HexWords.HexFileSays | designs/benchmarks/hackatdac21/design/hackatdac21/pk/freedom-bin2hex.py:24-50 | Every line of a hex file from 128-bit rows, below number 2^32, has its number in eight hexadecimal digits and the row as four little-endian 32-bit words, the first word first |
| HexWords.CaseIgnoredInFile | designs/benchmarks/hackatdac21/design/hackatdac21/pk/freedom-bin2hex.py:75-100 | Upper and lower case in a hex file make no difference to what is listed |
| Bin2Hex.ThroughMemExactly | designs/benchmarks/hackatdac21/design/hackatdac21/pk/freedom-bin2hex.py:24-64 | Binary to mem to hex gives the same file as binary to hex if and only if rows have at least 128 bits, or there are none |
| Bin2Hex.LinePrints | designs/benchmarks/hackatdac21/design/hackatdac21/pk/freedom-bin2hex.py:75-100 | For numbers up to 2^32, a hex line prints the bytes of its row if and only if its number is below 2^32, where the address still has eight digits |
| Bin2Hex.ConvertHex | designs/benchmarks/hackatdac21/design/hackatdac21/pk/freedom-bin2hex.py:68-101 | The loops of hex_to_mem print what the fixed columns of every line say |
| Bin2Hex.ThroughHexExactly | designs/benchmarks/hackatdac21/design/hackatdac21/pk/freedom-bin2hex.py:18-100 | Binary to 128-bit hex to mem lists the zero-padded bytes in order, or each half row reversed, if and only if there are at most 2^32 rows |
| Z3Translate.DispatchExactly | helpers/rvalue_to_z3.py:388-427 | Of the 29 binary operators exactly ten are sent to a Z3 operator with another meaning |
| Z3Translate.DispatchTrims | helpers/rvalue_to_z3.py:389 | Blanks around an operator in the token text do not matter |
| Z3Translate.AcceptedExactly | helpers/rvalue_to_z3.py:374-427 | Without those operators Z3 accepts the term if and only if the source does not mix 32-bit values and truth values |
| Z3Translate.MeaningPreserved | helpers/rvalue_to_z3.py:374-523 | The term has the unsigned 32-bit value of the source under every valuation of the symbols, divisors non-zero; an identifier without an entry is 0 |
| Z3Translate.EntryFollowsExactly | helpers/rvalue_to_z3.py:519-523 | The term of an identifier follows its stored expression under all symbol values if and only if that is one symbol or one number without a leading blank |

## Left out

- StoreSoundness.Visitor.VisitAssignment: concatenations on the right-hand side are not part of this model; the code joins the values of their literals as decimal text, which is no concatenation of bits.
- StoreSoundness.RunSound: right-hand sides are identifiers, unsized literals, prefix-unary and binary expressions, with white space before operators and literals; parentheses, selects, comments between tokens and sized literals such as `1'b0`, whose letters the word replacement could reach, are not, and names contain no `$`, at which the word boundary of the pattern would cut. Blocks that mix blocking and non-blocking assignments are compared with blocking execution only.
- Cfg.Cfg.Resolve: the order in which a tuple lists its points is that of iterating a Python set and stays open; the path theorems hold for every order.
- StatementVisits.Visit: `expr_to_z3`, which converts guards, is not part of this model; the sort of every formula is a parameter, as are the solver's answers. A guard whose conversion raises, or a label of another sort than its subject, leaves its scope open in the source; here building a guard always succeeds, and the cache of solver answers is not part of this model.
- VisitReports.ScriptFollowed: the questions are those of a visitor without a cache; a cached answer takes the place of the extra question before a guard.
- PrintfFields.SignedField: -2^63 is covered as a number, while the C code negates it as a long long, which overflows.
- PrintfImpl.VPrintFmt: width, precision and the count of long flags are unbounded integers, so their overflow in C is not modelled; a missing or mismatched argument ends the model.
- PrintfImpl.Atol: the accumulator is unbounded, so signed overflow on texts beyond 64 bits, and on -2^63 before the sign is applied, is not modelled.
- SExpression.TokenizePrint: atoms hold no parenthesis and no blank behind their first other character; the select expressions that print blanks inside brackets, and calls, whose names touch a parenthesis, are not covered.
- StoreFreezing.StoreKeptExactly: the statement ranges over every statement tree of the model; a loop whose condition assigns may not occur, because the visitor recognises loops and assignments by node kinds of two different trees.
- IntegerText.StrToInt: what Python's `int` accepts besides plain digits (signs, underscores, other scripts) is a parameter; after a division the result is a float, of which nothing is said.
- Z3Translate.MeaningPreserved: sized literals, unary operators and part selects are not part of this model; an operation on mixed sorts counts as rejected, and a known operand behind `&&` does not hide an unknown one.
- Z3Translate.AcceptedExactly: bit operations on two truth values, as in `(a < b) & (c < d)`, count as rejected, because only some versions of Z3's Python interface define them and none is pinned.
- Bin2Hex.LinePrints: numbers above 2^32 are not covered, where the columns shift further; the first failing row, number 2^32, already decides `ThroughHexExactly`.
- Path conditions of conditionals: the guard is asserted un-negated on the false branch (`ConditionalExactly`) and popped before the branch, so no soundness is claimed for what follows it.
- Paths in the presence of `case` and `for`: they add partition points but no edges.
- The graph library's enumeration of simple paths, beyond the existence of one; pyslang, Z3 and Redis internals.
- Regular-expression word boundaries outside ASCII.
- `evaluate_*`, `eval_rvalue`, `str_to_bool`, `simpl_str_exp`, `merge_states`: unfinished or with no clear meaning.
- `putchar`, `strlen`, `strcmp`, `strcpy`, `printf` and the command line of the converter: easy or I/O.
- Equality of an ordered dictionary with a plain one, pickling and `repr`.
- Debug output, timers, sockets, generated tables and text templates.
