# Verified models of the Xinu cross-development tools

The cross tools of the Xinu distribution build 68000 programs: the assembler as68,
the loader ld68 (and its smaller sibling ld11), the C compiler pcc68 with its shared
front end, and pieces of the C library libxc. This project models their hardest
algorithms in Dafny and proves that they do what their comments and callers rely on.
`dafny verify dfyconfig.toml` checks everything.

**Assembler.** `SpanModel`, `SpanTheory` and `SpanRelaxation` are the relaxation of
span-dependent branches (sdi.c) over a list updated in place. `AssemblerPasses`
describes both passes as layouts of a program, `BranchCode` the words pass 2 writes
together with a small 68000, and `AssemblerDriver` runs everything from statements to
words on one symbol table.

**Compiler.** `SwitchMachine`, `SwitchHeap`, `SwitchSearch` and `SwitchCompiler` are
switch statements, from the case table to emitted code with its own semantics.
`BitPacker`, `InitWalk` and `Initializer` are static initializers, from a nested type
and its constants to words. `TreeOptimizer` is the tree rewriting
of optim and what it means, `OptimNodes` the same rewriting on the nodes in place.

**Loader.** `ProbeSequence`, `SymbolHash`, `SymbolTable` and `LinkerSymbols` are the
segmented symbol table with quadratic probing and back-out, `FlatTable` the numbering
of its symbols that the passes rely on, and `LinearTable` the linear table of ld11.
`LinkerModel`, `LinkerNeeds`, `LinkerPassOne` and `LinkerArchive` are the first pass and
archive search, `LinkerLayout` the step between the passes, `LinkerReloc`, `LinkerPassTwo` and
`LinkerAddresses` the second pass, `LinkerRuns` what the order of the modules decides,
`LinkerDriver` both passes from the arguments on, and `BufferedOutput` the buffered
streams that write the output file in several places at once.

**Library.** `QuickSort` is qsort, `IntegerPrinter` the integer conversions of
_doprnt with atol. `Arithmetic` and `Word` hold division facts and 32-bit words.

Code that updates things in place is modelled by classes and methods; each method is
proved against a function of its inputs or of the state before, and the theorems are
about those functions, for all inputs.

## What the proofs found

Some promises do not hold as the code stands. The code is modelled as it is, with the
exact condition under which the promise is kept.

- longsdi does not update the span of the branch it lengthens, so a forward word
  branch can be left up to eight bytes beyond its 16-bit reach; pass 2 then emits a
  longer form and labels move (`EdgeExample`, `EdgeWindow`, `ProgramAgreesIff`).
- The eight-byte conditional jump of baround is written with a pc-relative mode and an
  absolute address, so within a csect it does not reach its target
  (`AroundReachesIff`, `AroundMisses`); ctrl_op uses the absolute mode.
- A jbsr to the next instruction is relaxed to two bytes and then refused by brnchs
  (`Coder.Jbrnch`, `CallNextExample`).
- "hash table botch" is unreachable while a segment has room, but a full segment can
  exhaust the probes of a name that belongs in the next one (`BotchIff`,
  `SameHashBotch`, `HashBotch`).
- symfree with no mark empties the table and leaves nextsym behind (`GoesStaleIff`). A
  next member that enters fewer symbols than it counts fails with "symfree botch"
  (`BackOutTwice`); one that enters at least as many is backed out too little, and its
  symbols, definitions included, stay in a link that never loads it (`LeftBehind`,
  `PhantomDefinition`, `LoadStaysCleanIff`), so that the real definition is reported as
  multiply defined (`PhantomFirst`). Once a symbol is in the table this cannot happen
  (`StaysSmooth`).
- Backing out an archive member does not undo the sizes it gave to undefined symbols
  (`BackOutRestoresIff`, `PhantomCommon`).
- A member that lists a name as undefined before it defines it is loaded though no other
  module wanted the name (`SelfWantedIff`); no other member is loaded without need.
- A plain file with bss but neither symbols, text nor data counts on the second pass
  only, which moves the bss of every later module (`PassesAgreeIff`, `BssFitsIff`,
  `BssFirst`).
- A definition of a text symbol that an earlier common overruled is always reported as
  multiply defined (`SoleDefinitionAccepted`, `CommonFirst`).
- adddef outside any switch complains about a duplicate default when the first table
  entry has a label, because it looks at the table before it looks for a switch
  (`AddDef`, `StrayDefault`).
- swend leaves the cases of a switch with duplicates in the table (`SwEnd`).

## Model

| member | source | states |
|---|---|---|
| SpanRelaxation.SdiTable.MakeSdi | extracted/68/src/cmd/as68/sdi.c:35-67 | a branch descriptor starts in its shortest form with span -base and is linked into the list at the place its address gives, nothing else changing |
| SpanRelaxation.InsertedSorted | extracted/68/src/cmd/as68/sdi.c:61-65 | linking a descriptor in keeps the list in address order |
| SpanRelaxation.InsertedKeeps | extracted/68/src/cmd/as68/sdi.c:61-65 | linking in loses no descriptor and adds exactly one |
| SpanRelaxation.SdiTable.SdiLen | extracted/68/src/cmd/as68/sdi.c:156-166 | the length found is the first form whose bounds hold the tracked span, the general length when the symbol is undefined or in another csect |
| SpanRelaxation.SdiTable.SdiInc | extracted/68/src/cmd/as68/sdi.c:172-187 | stopping at the first later descriptor still sums the growth of every branch of the csect in front of the offset |
| SpanRelaxation.Sdi.Shift | extracted/68/src/cmd/as68/sdi.c:138-150 | how one descriptor reacts when an instruction of its label's csect grows: span away from zero only if the instruction lies between, base only if it lies in front |
| SpanRelaxation.SdiTable.LongSdi | extracted/68/src/cmd/as68/sdi.c:128-151 | the in-place update of the whole list equals the value-level step Lengthened |
| SpanTheory.LengthenedInv | extracted/68/src/cmd/as68/sdi.c:128-151 | lengthening a branch keeps every base at its real address plus two, every span of a shortest or backward branch equal to its recomputed displacement, and every other forward span a lower bound |
| SpanTheory.SpanBelow | extracted/68/src/cmd/as68/sdi.c:134-151 | a tracked span never exceeds, in absolute value, the displacement under any assignment with lengths at least as long |
| SpanTheory.StepBelow | extracted/68/src/cmd/as68/sdi.c:113-122 | a branch about to be lengthened stays within every assignment whose forms cover their true displacements |
| SpanTheory.OutcomeUnique | extracted/68/src/cmd/as68/sdi.c:113-122 | two outcomes with every form right have the same lengths, whichever order the branches were visited in |
| SpanTheory.ShortFormReaches | extracted/68/src/cmd/as68/sdi.c:94-99 | when relaxation stops, a branch left at two bytes has a final displacement within its short form, as the comment on sdi_resolve promises |
| SpanTheory.FixpointForms | extracted/68/src/cmd/as68/sdi.c:113-122 | at the fixpoint no branch is longer than its true displacement asks for, and only a forward branch of a middle form can be shorter |
| SpanTheory.ConsistentIff | extracted/68/src/cmd/as68/sdi.c:113-122 | a stable list is consistent exactly when every branch has the form its true displacement asks for |
| SpanTheory.LengthenedLag | extracted/68/src/cmd/as68/sdi.c:139 | every update keeps the bound on what a grown forward span misses: the growth of the branch itself plus that of at most one branch ending right at its label |
| SpanTheory.SpanFromStart | extracted/68/src/cmd/as68/sdi.c:138-139 | the tracked span of a forward branch that grew to its middle form never falls behind the displacement it started with |
| SpanTheory.LengthenedRelaxing | extracted/68/src/cmd/as68/sdi.c:113-122 | every round keeps the whole invariant, lag bound and lower bound on all consistent assignments included |
| SpanRelaxation.NeverPathological | extracted/68/src/cmd/as68/sdi.c:119-120 | sdi_len never asks for less than the current length, so "Pathological sdi" cannot be reached |
| SpanTheory.SlackFalls | extracted/68/src/cmd/as68/sdi.c:113-122 | lengthening one branch lowers the total of general minus current lengths by the growth |
| SpanRelaxation.SdiTable.Sweep | extracted/68/src/cmd/as68/sdi.c:114-121 | one round makes the list the specified one, and either strictly lowers that total or leaves a list in which no branch wants to grow |
| SpanRelaxation.SdiTable.SdiResolve | extracted/68/src/cmd/as68/sdi.c:100-123 | from the descriptors of pass 1, the loop terminates in the list the rounds lead to, which is stable and satisfies every invariant above, and its lengths are pointwise no longer than those of any assignment in which every form covers its true displacement |
| SpanTheory.RelaxedResolved | extracted/68/src/cmd/as68/sdi.c:113-122 | the list the rounds lead to, as a function of the list before, is stable and keeps every invariant above |
| SpanRelaxation.SdiTable.SymFix | extracted/68/src/cmd/as68/sym.c:100-123 | every symbol of a csect moves by the growth in front of it and by the origin of its csect |
| AssemblerPasses.PassOneInitial | extracted/68/src/cmd/as68/ins.c:570-572 | the descriptor list pass 1 builds from any program is a legal start: sorted, branches apart, labels outside branches, spans exact |
| AssemblerPasses.RightUnlessEdge | extracted/68/src/cmd/as68/sdi.c:138-139 | after relaxation a branch has the form of its true displacement exactly when it is not a forward word branch past 32767 |
| AssemblerPasses.EdgeWindow | extracted/68/src/cmd/as68/sdi.c:138-139 | such an edge branch overshoots the 16-bit reach by at most eight bytes |
| AssemblerPasses.StepInStep | extracted/68/src/cmd/as68/ins.c:556-614 | if pass 2 picks the relaxed length at a statement, every location counter stays where Sym_Fix put it |
| AssemblerPasses.PassesAgreeIff | extracted/68/src/cmd/as68/ins.c:556-614 | pass 2 picks for every branch exactly the bytes relaxation left if and only if no branch is an edge branch |
| AssemblerPasses.ProgramAgreesIff | extracted/68/src/cmd/as68/ins.c:556-614 | whether the passes agree on a program is decided by the program alone: exactly when the list its relaxation leads to has no edge branch |
| AssemblerPasses.LabelsStay | extracted/68/src/cmd/as68/ins.c:556-614 | without edge branches every label stands, on pass 2, at the value Sym_Fix gave it |
| AssemblerPasses.NoEdgeWhenWide | extracted/68/src/cmd/as68/ins.c:580-581 | a check before relaxation rules edge branches out: every forward branch reaches its label by 16 bits with everything at its longest, or does not reach it even with everything at its shortest |
| AssemblerPasses.LongFromStart | extracted/68/src/cmd/as68/ins.c:575-576 | a forward branch out of 16-bit reach from the start ends in its general form |
| AssemblerPasses.EdgeExample | extracted/68/src/cmd/as68/sdi.c:139 | a branch over 32766 bytes is left at four bytes and pass 2 makes it six |
| AssemblerPasses.SectionsFit | extracted/68/src/cmd/as68/ps.c:18-25 | the bytes pass 2 emits for a csect end before the next csect starts |
| BranchCode.Coder.Jbrnch | extracted/68/src/cmd/as68/ins.c:556-582 | the unconditional words have the chosen length and, run by the machine, go to the operand's value (with the right return address for a call); a call to the next instruction is refused with an offset error |
| BranchCode.Coder.Cbrnch | extracted/68/src/cmd/as68/ins.c:588-614 | the conditional words have the chosen length and go to the target or fall through as the condition says; in the eight-byte form the taken jump goes to where its pc-relative mode leads |
| BranchCode.Coder.Baround | extracted/68/src/cmd/as68/ins.c:619-625 | the eight-byte form is the opposite condition over six bytes, then a jmp opcode with mode 072 and the absolute address |
| BranchCode.AroundReachesIff | extracted/68/src/cmd/as68/ins.c:622-624 | the eight-byte form lands on its target exactly when the distance from its address words equals the sign-extended high half of the target |
| BranchCode.AroundMisses | extracted/68/src/cmd/as68/ins.c:622-624 | for a target in the same csect below 0x7ffe0000 it never does |
| BranchCode.Coder.Brnchs | extracted/68/src/cmd/as68/ins.c:519-542 | the displacement goes into the opcode byte, with an error when it does not fit; zero becomes a nop, or an error for bsr |
| BranchCode.Coder.RelVal | extracted/68/src/cmd/as68/rel.c:158-178 | a word or long is appended most significant word first and the length grows with it |
| AssemblerDriver.Assembler.PassOne | extracted/68/src/cmd/as68/ins.c:556-614 | reading all statements leaves the symbols, location counters and descriptor list the specification of pass 1 describes |
| AssemblerDriver.Assembler.Between | extracted/68/src/cmd/as68/ps.c:16-27 | the relaxed list is a legal outcome for the program and every symbol has its final value for it |
| AssemblerDriver.Assembler.PassTwo | extracted/68/src/cmd/as68/ins.c:574-614 | pass 2 goes through the layouts its own choices give; every jump, call and conditional jump it emits lands where its operand says, and exactly the calls to the next instruction are refused |
| AssemblerDriver.Assemble | extracted/68/src/cmd/as68/ps.c:3-53 | the assembler end to end: the list is the one the program determines, a least relaxation outcome, and every jump, call and conditional jump of every program has its landing place or its refusal |
| AssemblerDriver.CallNextExample | extracted/68/src/cmd/as68/ins.c:526-540 | a call of the next instruction is relaxed to two bytes and refused |
| AssemblerDriver.JumpsReachLabels | extracted/68/src/cmd/as68/ins.c:556-614 | without edge branches, every jump and call in the output goes to the place where the statement behind its label was emitted, and so does every conditional jump of two or four bytes when its condition holds; the eight-byte form goes where its mode leads |
| SwitchHeap.Select | extracted/68/src/cmd/pcc68/code.c:644-652 | select(m) on the sorted cases of a subtree is the rank of its root in the left-complete tree |
| SwitchHeap.SubSizeIs | extracted/68/src/cmd/pcc68/code.c:644-652 | size of a subtree of the left-complete tree from its height and its bottom row |
| SwitchHeap.MakeHeap | extracted/68/src/cmd/pcc68/code.c:633-642 | heapsw[1..n] ends up with every case exactly once, in search-tree order |
| SwitchHeap.WalkRuns | extracted/68/src/cmd/pcc68/code.c:654-697 | running the code emitted for a subtree on any value goes to the matching case's label or the default, in at most one compare a level |
| SwitchHeap.HeightIsLog | extracted/68/src/cmd/pcc68/code.c:633-697 | the tree of n cases has floor(log2 n)+1 levels |
| SwitchSearch.HeapSwitchMeans | extracted/68/src/cmd/pcc68/code.c:592-604 | the heap switch does what a linear search of the cases would |
| SwitchSearch.SimpleSwitchMeans | extracted/68/src/cmd/pcc68/code.c:612-631 | so does the compare-and-branch sequence, with one compare a case |
| SwitchSearch.TableSwitchMeans | extracted/68/src/cmd/pcc68/code.c:540-590 | so does the jump table, for every 32-bit value |
| SwitchSearch.OutOfRange | extracted/68/src/cmd/pcc68/code.c:559-569 | a value outside the table matches no case, wraparound of the subtraction included |
| SwitchSearch.FromLow | extracted/68/src/cmd/pcc68/code.c:559-569 | a value that passes the range check is its table index plus the lowest case |
| SwitchSearch.TableJumps | extracted/68/src/cmd/pcc68/code.c:571-584 | the scaled, pc-relative fetch and jump reach the label in the table word of the index |
| SwitchCompiler.SwitchCompiler.WalkHeap | extracted/68/src/cmd/pcc68/code.c:654-697 | the code emitted and the labels taken are those of WalkCode |
| SwitchCompiler.SwitchCompiler.GenHeap | extracted/68/src/cmd/pcc68/code.c:592-604 | builds the heap in heapsw and emits code that means the switch, with logarithmically many compares |
| SwitchCompiler.SwitchCompiler.GenTable | extracted/68/src/cmd/pcc68/code.c:540-590 | emits a table that means the switch |
| SwitchCompiler.SwitchCompiler.GenSimple | extracted/68/src/cmd/pcc68/code.c:612-631 | emits at most n compares that mean the switch |
| SwitchCompiler.SwitchCompiler.GenSwitch | extracted/68/src/cmd/pcc68/code.c:528-631 | whichever strategy is picked, the code means the switch |
| SwitchCompiler.SwitchCompiler.BubbleSort | extracted/68/src/cmd/pcc68/cgram.c:180-203 | the shrinking-bound bubble sort terminates with a sorted permutation of the pairs |
| SwitchCompiler.SwitchCompiler.HasDuplicate | extracted/68/src/cmd/pcc68/cgram.c:207-212 | adjacent equal values in the sorted table are found exactly when the source cases are not distinct |
| SwitchCompiler.SwitchCompiler.SwStart | extracted/68/src/cmd/pcc68/cgram.c:164-172 | opens a block with no default behind the entries already there |
| SwitchCompiler.SwitchCompiler.AddCase | extracted/68/src/cmd/pcc68/cgram.c:132-150 | appends the case with a new label, or reports exactly a case outside a switch or a full table |
| SwitchCompiler.SwitchCompiler.AddDef | extracted/68/src/cmd/pcc68/cgram.c:152-162 | gives the block a default label once; a duplicate is reported exactly when the entry at swx has a label, and a default outside a switch only when it has none |
| SwitchCompiler.StrayDefault | extracted/68/src/cmd/pcc68/cgram.c:152-162 | in a compiler that has not opened a switch a default is called a duplicate; in one whose only switch, without a default, is closed it is called a default outside a switch |
| SwitchCompiler.SwitchCompiler.SwEnd | extracted/68/src/cmd/pcc68/cgram.c:174-216 | for duplicate-free cases the emitted code does what a linear search of the cases in source order would, and the block is closed |
| SwitchCompiler.PermutedMeaning | extracted/68/src/cmd/pcc68/cgram.c:174-214 | sorting duplicate-free cases does not change what the switch means |
| QuickSort.Exchange | extracted/68/src/lib/libxc/qsort.c:87-101 | two elements change places, also when they are one |
| QuickSort.Rotate | extracted/68/src/lib/libxc/qsort.c:103-120 | three elements rotate, with every aliasing of the arguments |
| QuickSort.Partition | extracted/68/src/lib/libxc/qsort.c:26-68 | ends with smaller elements, then all pivots, then larger ones, having permuted only the stretch; the unclassified part strictly shrinks |
| QuickSort.Qs1 | extracted/68/src/lib/libxc/qsort.c:16-85 | the stretch is sorted and nothing outside changes; the recursion, into the smaller side only, nests no deeper than the logarithm of the size |
| QuickSort.Qsort | extracted/68/src/lib/libxc/qsort.c:5-14 | for every total preorder the array becomes an ordered permutation of itself |
| QuickSort.ShiftPivots | extracted/68/src/lib/libxc/qsort.c:82-83 | the three-way exchange that moves the pivots down keeps smaller, equal and larger zones, whichever of its arguments coincide |
| QuickSort.TripRight | extracted/68/src/lib/libxc/qsort.c:70-73 | a turn that sorts the right side leaves everything right of the rest in its final place |
| QuickSort.TripLeft | extracted/68/src/lib/libxc/qsort.c:74-77 | so does a turn that sorts the left side |
| ProbeSequence.Prime | extracted/68/src/cmd/ld68/ld.c:52 | 1103 is prime |
| ProbeSequence.ProbesDiffer | extracted/68/src/cmd/ld68/ld.c:83-92 | the 1103 quadratic probes of a name are pairwise different buckets |
| SymbolHash.RoomForAbsent | extracted/68/src/cmd/ld68/ld.c:83-92 | a segment that is not full never runs out of probes, as the comment promises |
| SymbolHash.ExhaustedIff | extracted/68/src/cmd/ld68/ld.c:1693-1709 | probing one segment fails exactly when its symbols occupy all 1103 probes of an absent name, which takes a full segment |
| SymbolTable.SameHashBotch | extracted/68/src/cmd/ld68/ld.c:1708-1709 | a well-formed table exists in which an absent name fails with a botch: 1103 names of one hash value, built one by one |
| LinkerSymbols.HashBotch | extracted/68/src/cmd/ld68/ld.c:1666-1713 | 1103 names of one hash value enter a new table, and the lookup of the next one, which is in no segment, fails though no other segment holds a symbol |
| SymbolHash.PairsHash | extracted/68/src/cmd/ld68/ld.c:1674-1677 | names made of two pairs of letters all have one hash value |
| SymbolHash.PairsDiffer | extracted/68/src/cmd/ld68/ld.c:1674-1677 | and are different names |
| SymbolHash.ScanFinds | extracted/68/src/cmd/ld68/ld.c:1691-1707 | every symbol of a well-formed segment is found in its own bucket |
| SymbolTable.LookupFinds | extracted/68/src/cmd/ld68/ld.c:1678-1710 | every symbol of the segmented table is found where it sits |
| SymbolTable.LookupSound | extracted/68/src/cmd/ld68/ld.c:1678-1710 | a name is found exactly when it is in the table |
| SymbolTable.BotchIff | extracted/68/src/cmd/ld68/ld.c:1708-1709 | "hash table botch" is reported for an absent name exactly when it reaches a full segment whose symbols occupy all its probes |
| SymbolTable.EnteredWellTable | extracted/68/src/cmd/ld68/ld.c:1752-1767 | entering an absent name keeps the table well formed |
| SymbolTable.RestoredWellTable | extracted/68/src/cmd/ld68/ld.c:1721-1735 | backing out keeps every surviving symbol findable and no removed one |
| SymbolTable.BackOutRestores | extracted/68/src/cmd/ld68/ld.c:1721-1735 | backing out to a mark returns the table to its contents at the mark |
| SymbolTable.BackOutRestoresIff | extracted/68/src/cmd/ld68/ld.c:1715-1739 | backing out to any place behind a symbol, or to none, restores the earlier table exactly when the place was behind its newest symbol |
| LinkerSymbols.Segment.Probing | extracted/68/src/cmd/ld68/ld.c:1691-1709 | the incremental rehash visits the quadratic probes in order |
| LinkerSymbols.SymTab.Lookup | extracted/68/src/cmd/ld68/ld.c:1665-1713 | the loop over segments returns what the specification of lookup does, adding segments only |
| LinkerSymbols.SymTab.Enter | extracted/68/src/cmd/ld68/ld.c:1752-1772 | enters an absent symbol into its bucket and moves nextsym, or leaves everything |
| LinkerSymbols.SymTab.SymFree | extracted/68/src/cmd/ld68/ld.c:1715-1739 | succeeds exactly for no mark or a mark of a segment in use, and leaves the restored table |
| LinkerSymbols.SymTab.LoadAndBackOut | extracted/68/src/cmd/ld68/ld.c:821-827 | for every table and every nextsym: entering names succeeds exactly when lookup finds each or a place for it, and the table in between holds the old names and the new ones; symfree fails exactly when nextsym is behind no symbol of that table, and the table comes back exactly when it was behind the newest symbol before |
| LinkerSymbols.BackOutTwice | extracted/68/src/cmd/ld68/ld.c:1721-1738 | a first member backed out to an empty table leaves nextsym behind no symbol, and backing out a next member that enters nothing fails with "symfree botch" |
| LinkerSymbols.LeftBehind | extracted/68/src/cmd/ld68/ld.c:1721-1738 | backing out a next member that enters a name succeeds, and lookup finds the name in the table it leaves |
| FlatTable.FindIsLookup | extracted/68/src/cmd/ld68/ld.c:1666-1713 | looking a name up in the segments gives the symbol that a search of the symbols in order of entry gives |
| FlatTable.EnterAppends | extracted/68/src/cmd/ld68/ld.c:1752-1772 | enter gives a symbol the next number, across segments |
| FlatTable.FreeCuts | extracted/68/src/cmd/ld68/ld.c:1715-1739 | symfree cuts the sequence of symbols at the place saved |
| FlatTable.GoodMarkIff | extracted/68/src/cmd/ld68/ld.c:1774-1787 | a place is behind some symbol exactly when its number is not beyond their number |
| FlatTable.FreshIff | extracted/68/src/cmd/ld68/ld.c:104 | nextsym is behind the newest symbol exactly when its number is the number of symbols |
| LinearTable.SomeEmpty | extracted/7/src/cmd/ld11.c:66 | with NSYM+2 buckets some bucket is always empty |
| LinearTable.LookStops | extracted/7/src/cmd/ld11.c:1270-1278 | so linear probing always comes to the symbol or an empty bucket |
| LinearTable.EnterWell | extracted/7/src/cmd/ld11.c:1290-1307 | entering keeps every symbol findable |
| LinearTable.TruncateWell | extracted/7/src/cmd/ld11.c:484-487 | backing out the newest symbols keeps every other one findable |
| LinearTable.ShortTable.Lookup | extracted/7/src/cmd/ld11.c:1260-1279 | the bucket returned holds the symbol exactly when the name is in the table |
| LinearTable.ShortTable.BackOut | extracted/7/src/cmd/ld11.c:665-667 | the back-out loop leaves exactly the table cut to its mark |
| LinearTable.ShortTable.EnterAndBackOut | extracted/7/src/cmd/ld11.c:465-488 | the table overflows exactly when the new names do not fit; else all of an overlay's symbols are in, and in both cases the table is afterwards what it was |
| LinkerModel.AbsorbAllSettles | extracted/68/src/cmd/ld68/ld.c:788-803 | once a module's symbols have gone in, each external one is defined, overruled by a common, or a reference |
| LinkerModel.SettledDefinesNothing | extracted/68/src/cmd/ld68/ld.c:789-803 | absorbing such a module again would define and enter nothing |
| LinkerNeeds.DefinesIff | extracted/68/src/cmd/ld68/ld.c:788-802 | ndef is above zero exactly when some symbol defines a name that is undefined by then, in the table before the module or first listed as undefined by the module itself, and that for a symbol in text has no size by then |
| LinkerNeeds.ResolvedIsDefined | extracted/68/src/cmd/ld68/ld.c:798-802 | and every such name is defined once the module's symbols are in |
| LinkerNeeds.DefinesEarlyIff | extracted/68/src/cmd/ld68/ld.c:787-788 | in an empty table the module's first mentions of its names make the entries in order, so it leaves a definition among the first n exactly when one of its first n names is first mentioned by a definition |
| LinkerPassOne.LoadStaysGood | extracted/68/src/cmd/ld68/ld.c:736-828 | after every load, whatever nextsym: sizes are sums over the modules kept, every external symbol of a kept module is settled, entries only evolve, and nextsym is stale in an empty table only |
| LinkerPassOne.OutcomeIs | extracted/68/src/cmd/ld68/ld.c:736-828 | whether load1 fails, keeps the module or drops it, decided by the table and the module's sizes and symbols before the call: it fails exactly on a module it refuses or on a stale nextsym that counts too many symbols |
| LinkerPassOne.LoadStaysCleanIff | extracted/68/src/cmd/ld68/ld.c:804-827 | every defined entry stays one visited module's symbol, moved by the sizes before it, exactly unless a member dropped on a stale nextsym defines one of as many names as nextsym counts |
| LinkerPassOne.GoesStaleIff | extracted/68/src/cmd/ld68/ld.c:825 | nextsym goes stale exactly when a member with external symbols is dropped before any symbol is in the table |
| LinkerPassOne.StaleEnds | extracted/68/src/cmd/ld68/ld.c:813-825 | a stale nextsym stops the link, or ends with as many symbols left as it counts |
| LinkerPassOne.SmoothClean | extracted/68/src/cmd/ld68/ld.c:573-660 | on every run in which nextsym never goes stale, every definition is a visited module's |
| LinkerPassOne.StaysSmooth | extracted/68/src/cmd/ld68/ld.c:573-660 | and a run stays so unless a member with external symbols is dropped before the first symbol |
| LinkerPassOne.NothingDefined | extracted/68/src/cmd/ld68/ld.c:821-827 | a module that defines nothing changes old entries at most by raising sizes of undefined ones |
| LinkerArchive.Linker.Load1 | extracted/68/src/cmd/ld68/ld.c:736-828 | the imperative load computes exactly the specified table, nextsym, sizes and outcome |
| LinkerArchive.Linker.SymFree | extracted/68/src/cmd/ld68/ld.c:1715-1739 | takes the newest symbols out down to the place saved, or all of them, and fails when it is not reached |
| LinkerArchive.LookedAt | extracted/68/src/cmd/ld68/ld.c:711-731 | after a member has been looked at, no name listed for it is undefined without a size |
| LinkerArchive.KeptNow | extracted/68/src/cmd/ld68/ld.c:668-681 | a member kept now is loaded for a name it resolves at that step of the run, and has not been recorded before |
| LinkerArchive.SelfWantedIff | extracted/68/src/cmd/ld68/ld.c:791-802 | some sound state keeps a member none of whose definitions is wanted exactly when the member itself first lists a name as undefined and then defines it, for a symbol in text without a size in between |
| LinkerArchive.KeptThough | extracted/68/src/cmd/ld68/ld.c:791-802 | in every sound state, a member kept though none of its definitions is wanted is one of those |
| LinkerArchive.AnswersIsKept | extracted/68/src/cmd/ld68/ld.c:711-725 | a member that defines an undefined name is kept and the name defined, unless a size overrules a definition in text |
| LinkerArchive.PickedIff | extracted/68/src/cmd/ld68/ld.c:668-681 | at every step of a run that does not fail, a member is loaded exactly when it resolves a name undefined in the table of that step, or by its own list |
| LinkerArchive.SearchCloses | extracted/68/src/cmd/ld68/ld.c:638-642 | however many passes it takes, no name that the table of contents truly lists is left undefined without a size |
| LinkerArchive.SearchStopsIff | extracted/68/src/cmd/ld68/ld.c:711-731 | a search stops ld exactly when nextsym was stale before it, or when in the end a name is undefined that is listed for a member load1 refuses |
| LinkerArchive.SearchRecords | extracted/68/src/cmd/ld68/ld.c:678-680 | the members recorded are exactly those the search loads, in order and none twice, each with the step of the run at which it resolved something |
| LinkerArchive.ScanIs | extracted/68/src/cmd/ld68/ld.c:596-603 | stepping through an archive loads its members one by one, up to the first that stops ld |
| LinkerArchive.Linker.Ldrand | extracted/68/src/cmd/ld68/ld.c:711-731 | one pass makes exactly the steps specified, fails exactly when they do, at once on a stale nextsym, and tells whether the table grew |
| LinkerArchive.Linker.SearchArchive | extracted/68/src/cmd/ld68/ld.c:638-642 | the repeated search terminates having made exactly the steps specified; it fails exactly on a stale nextsym or a refused member still wanted, and otherwise no truly listed name is left undefined without a size; the library list gets the offsets of exactly the members loaded |
| LinkerArchive.Linker.ScanArchive | extracted/68/src/cmd/ld68/ld.c:596-603 | stepping through an archive in file order makes the steps for its members up to the first that stops ld, fails exactly if there is one, and records exactly the members loaded |
| LinkerArchive.BackOutRestoresIff | extracted/68/src/cmd/ld68/ld.c:793-827 | backing a member out restores the table exactly when nextsym was not stale and the member asked for no common bigger than an undefined symbol's size; nextsym comes back exactly when there were symbols or none was entered |
| LinkerArchive.PhantomCommon | extracted/68/src/cmd/ld68/ld.c:793-796 | otherwise a member that is not loaded leaves an undefined symbol with a size |
| LinkerArchive.PhantomDefinition | extracted/68/src/cmd/ld68/ld.c:1721-1738 | after two members dropped before the first symbol the table holds a definition of a module never loaded |
| LinkerLayout.CommonsApart | extracted/68/src/cmd/ld68/ld.c:871-890 | commons get disjoint, aligned storage in table order |
| LinkerLayout.PassesAgreeIff | extracted/68/src/cmd/ld68/ld.c:899-945 | a symbol's value after middle is the one load2 recomputes, exactly when it is not in bss or no earlier plain file had bss but no symbols |
| LinkerLayout.EveryDefinitionAgrees | extracted/68/src/cmd/ld68/ld.c:1136-1201 | if every file with bss has symbols, every defined entry that came from a visited module has the value load2 recomputes for it |
| LinkerLayout.BssAgreesIff | extracted/68/src/cmd/ld68/ld.c:747-751 | the bss counted by the two passes agrees exactly under that condition |
| LinkerLayout.AllFound | extracted/68/src/cmd/ld68/ld.c:1174-1175 | "internal error: symbol not found" cannot be reached |
| LinkerRuns.SoleDefinitionAccepted | extracted/68/src/cmd/ld68/ld.c:1195-1200 | a symbol defined once is reported multiply defined exactly when a module in front of it, kept or not, or its own module had given the name a size and it is in text, or by the bss disagreement |
| LinkerRuns.SizedIs | extracted/68/src/cmd/ld68/ld.c:788-803 | whether a name is in the table, and whether an undefined one has a size, follows from the order of the modules |
| LinkerRuns.BssFirst | extracted/68/src/cmd/ld68/ld.c:747-749 | a file with nothing but bss in front of a symbol in bss: multiply defined, and the declared bss too small |
| LinkerRuns.CommonFirst | extracted/68/src/cmd/ld68/ld.c:798-799 | a common in front of the only definition, in text: multiply defined |
| LinkerRuns.PhantomFirst | extracted/68/src/cmd/ld68/ld.c:1721-1738 | two dropped members in front of the only real definition: multiply defined |
| LinkerPassTwo.SecondPass.Middle | extracted/68/src/cmd/ld68/ld.c:830-955 | origins, sizes, commons and the final value of every symbol are the specified ones |
| LinkerPassTwo.SecondPass.AssignCommons | extracted/68/src/cmd/ld68/ld.c:871-890 | the loop gives each common the specified offset and returns their total |
| LinkerPassTwo.ChainFinds | extracted/68/src/cmd/ld68/ld.c:1188-1192 | the local-symbol hash finds exactly the undefined symbols of the module, each with its entry |
| LinkerPassTwo.SecondPass.ReadSymbols | extracted/68/src/cmd/ld68/ld.c:1108-1201 | every undefined symbol is hashed and exactly the disagreeing definitions are reported |
| LinkerPassTwo.SecondPass.Load2td | extracted/68/src/cmd/ld68/ld.c:1273-1436 | the buffer is patched entry by entry by the amounts the specification gives, and the saved entries are those for a later link |
| LinkerPassTwo.WriteWord | extracted/68/src/cmd/ld68/ld.c:1412-1420 | the shifted bytes are the low bytes of the number, most significant first, and no other byte changes |
| LinkerReloc.ReadBack | extracted/68/src/cmd/ld68/ld.c:1320-1330 | a number written as n bytes reads back modulo 256^n |
| LinkerReloc.EachWord | extracted/68/src/cmd/ld68/ld.c:1297-1420 | when no two entries overlap every word grows by exactly its own amount, whatever the order |
| LinkerReloc.OtherBytes | extracted/68/src/cmd/ld68/ld.c:1297-1420 | bytes that no entry covers stay |
| LinkerPassTwo.SecondPass.Load2 | extracted/68/src/cmd/ld68/ld.c:1089-1217 | one module's relocated text and padded data are appended, with -r also its relocation entries for a later link, and the origins move past it |
| LinkerAddresses.AddressesDiffer | extracted/68/src/cmd/ld68/ld.c:899-911 | no two bytes of the program share an address |
| LinkerAddresses.CommonsClear | extracted/68/src/cmd/ld68/ld.c:899-911 | commons lie clear of every byte of a module |
| LinkerAddresses.BssFitsIff | extracted/68/src/cmd/ld68/ld.c:1217 | the modules' bss fits what the header declares exactly when every file with bss has symbols |
| LinkerAddresses.EndSymbols | extracted/68/src/cmd/ld68/ld.c:867-875 | _etext and _edata are the ends of text and data, and _end the end of bss exactly when every file with bss has symbols |
| LinkerAddresses.StreamsApart | extracted/68/src/cmd/ld68/ld.c:1007-1034 | the text and data written stay within the room setupout leaves them |
| LinkerAddresses.SegmentWord | extracted/68/src/cmd/ld68/ld.c:1359-1390 | a word that held a module's own address of a byte holds its final address after relocation; a pc-relative one the final distance |
| LinkerAddresses.ExternalText | extracted/68/src/cmd/ld68/ld.c:1339-1358 | in the output text, a word that refers to an external symbol holds the symbol's final value plus its displacement, or the distance to it |
| LinkerAddresses.ExternalData | extracted/68/src/cmd/ld68/ld.c:1339-1358 | the same in the output data |
| LinkerAddresses.ExternalWord | extracted/68/src/cmd/ld68/ld.c:1339-1358 | relocation adds exactly what turns the reference by the module's addresses into the one by final addresses |
| LinkerAddresses.SymbolAddress | extracted/68/src/cmd/ld68/ld.c:918-944 | a symbol defined at a byte of a module has that byte's final address |
| LinkerAddresses.DuplicatesAre | extracted/68/src/cmd/ld68/ld.c:1195-1200 | load2 reports exactly the symbols the table disagrees with |
| LinkerAddresses.Finish | extracted/68/src/cmd/ld68/ld.c:1089-1217 | middle and load2 over all modules: succeeds exactly when every target is legal, and the streams hold every module's relocated segments at its addresses |
| LinkerAddresses.TextWord | extracted/68/src/cmd/ld68/ld.c:1273-1436 | in the output text, a reference to a byte of the same module is that byte's final address or distance, modulo the word |
| LinkerAddresses.DataWord | extracted/68/src/cmd/ld68/ld.c:1273-1436 | the same in the output data |
| LinkerDriver.Load1Arg | extracted/68/src/cmd/ld68/ld.c:573-660 | each argument makes exactly the steps specified for it, fails exactly when they do, and adds to the list of offsets exactly the members it loads |
| LinkerDriver.FirstPass | extracted/68/src/cmd/ld68/ld.c:573-660 | so does the whole pass, argument after argument |
| LinkerDriver.StopsIff | extracted/68/src/cmd/ld68/ld.c:573-660 | the first pass stops exactly at an argument that is reached and is a file load1 refuses, an archive stepped through with a member that fails, or an archive searched with a stale nextsym or a refused member still wanted |
| LinkerDriver.SafeStopsIff | extracted/68/src/cmd/ld68/ld.c:573-660 | when the first argument is a file with an external symbol, only modules load1 refuses stop it, and nextsym never goes stale |
| LinkerDriver.ChosenIs | extracted/68/src/cmd/ld68/ld.c:573-660 | the offsets recorded for every argument lead to exactly the modules visited, in the order of the arguments |
| LinkerDriver.Load2Arg | extracted/68/src/cmd/ld68/ld.c:1057-1087 | the second pass reads an argument's members back from the list and never runs past its end |
| LinkerDriver.Replay | extracted/68/src/cmd/ld68/ld.c:1057-1087 | so it loads exactly the modules the first pass visited |
| LinkerDriver.Link | extracted/68/src/cmd/ld68/ld.c:1057-1217 | both passes end to end, a function of the arguments: when a link stops, for every argument the steps it makes, the archive members loaded and needed and the names it leaves defined, and the streams that hold every module so loaded, relocated to its addresses, with the duplicates reported |
| BufferedOutput.Output.Bwrite | extracted/68/src/cmd/ld68/ld.c:1912-1953 | the stream grows by exactly the bytes given, the file changes only within the stream's stretch, and full buffers still end on block boundaries |
| BufferedOutput.Output.Bputc | extracted/68/src/cmd/ld68/ld.c:294-295 | the same for one byte |
| BufferedOutput.Output.Bflush1 | extracted/68/src/cmd/ld68/ld.c:1965-1982 | drains one stream without touching any other place of the file; ld's idea of the file offset stays the real one |
| BufferedOutput.Output.Bflush | extracted/68/src/cmd/ld68/ld.c:1955-1963 | afterwards the file holds every stream whole from where it was opened |
| BufferedOutput.Output.Bopen | extracted/68/src/cmd/ld68/ld.c:1899-1908 | adds an empty stream aligned to the blocks of the file |
| BufferedOutput.Session | extracted/68/src/cmd/ld68/ld.c:286-289 | any interleaving of calls on streams whose bytes do not overlap, then bflush: every stream is in the file contiguously and nothing else is |
| BitPacker.Packer.Incode | extracted/68/src/cmd/pcc68/local.c:252-281 | appends exactly the low sz bits of the value, or refuses a field that does not fit |
| BitPacker.Packer.Vfdzero | extracted/68/src/cmd/pcc68/local.c:314-335 | appends n zero bits |
| BitPacker.Packer.Zecode | extracted/68/src/cmd/pcc68/code.c:438-454 | appends whole zero longs |
| BitPacker.Packer.Cinit | extracted/68/src/cmd/pcc68/local.c:304-312 | appends the 32 bits of a long |
| BitPacker.Packer.Inforce | extracted/68/src/cmd/mip/pftn.c:768-806 | succeeds exactly when it need not go back, and then pads with zeros to the offset |
| BitPacker.Packer.Vfdalign | extracted/68/src/cmd/mip/pftn.c:808-812 | pads with zeros to the next multiple |
| BitPacker.FieldShown | extracted/68/src/cmd/pcc68/local.c:272 | or-ing the masked, shifted field into the word puts its bits behind the waiting ones |
| BitPacker.EmitStep | extracted/68/src/cmd/pcc68/local.c:275-279 | emitting the upper half and shifting moves sixteen waiting bits into the output |
| InitWalk.InitStack.Instk | extracted/68/src/cmd/mip/pftn.c:863-918 | stacking a type leaves its first scalar on top and exactly its other scalars to come |
| InitWalk.InitStack.Gotscal | extracted/68/src/cmd/mip/pftn.c:1096-1134 | moves to the next scalar in declaration order, or says there is none; only the outermost array goes on |
| InitWalk.KthScalar | extracted/68/src/cmd/mip/pftn.c:825-918 | after k steps the top of the stack is the k-th scalar of the type |
| InitWalk.WalkOrdered | extracted/68/src/cmd/mip/pftn.c:1041 | scalars come in increasing, non-overlapping order, so inforce never goes back |
| Initializer.Constants | extracted/68/src/cmd/mip/pftn.c:1017-1094 | the bits given for a list of constants are its image |
| Initializer.ImageAt | extracted/68/src/cmd/mip/pftn.c:1017-1094 | every constant sits, cut to size, at its scalar's offset |
| Initializer.ImageGaps | extracted/68/src/cmd/mip/pftn.c:768-806 | every other bit is zero |
| Initializer.Endinit | extracted/68/src/cmd/mip/pftn.c:964-1015 | fills the variable, gives an open array the elements it needed, and reports too many exactly when a declared dimension is exceeded |
| Initializer.Initialize | extracted/68/src/cmd/mip/pftn.c:825-1134 | from type and constants to the words emitted |
| TreeOptimizer.ConvalValue | extracted/68/src/cmd/mip/trees.c:562-606 | folding two constants, one of which may be symbolic, gives the operator's value modulo 2^32 |
| TreeOptimizer.TowerValue | extracted/68/src/cmd/mip/optim.c:95-106 | towering to the left keeps the value |
| TreeOptimizer.UnsubtractValue | extracted/68/src/cmd/mip/optim.c:107-113 | x - c1 + c2 becomes x + (c2 - c1) |
| TreeOptimizer.ZapleftValue | extracted/68/src/cmd/mip/optim.c:109-116 | collecting constants keeps the value |
| TreeOptimizer.ShiftValue | extracted/68/src/cmd/mip/optim.c:125-134 | multiplying by a power of two is shifting |
| TreeOptimizer.SubtractValue | extracted/68/src/cmd/mip/optim.c:136-140 | adding a negative constant is subtracting, the least number included |
| TreeOptimizer.RelValue | extracted/68/src/cmd/mip/optim.c:147-165 | exchanged operands with the reversed relation give the same truth value |
| TreeOptimizer.OptimKeepsValue | extracted/68/src/cmd/mip/optim.c:33-169 | the rewritten tree has the same 32-bit value in every environment |
| TreeOptimizer.OptimNormal | extracted/68/src/cmd/mip/optim.c:33-169 | nothing is left to rewrite at the root, unless a factor or divisor of one was dropped |
| TreeOptimizer.NumbersFold | extracted/68/src/cmd/mip/optim.c:114-123 | a tree of plain numbers becomes one constant |
| TreeOptimizer.PowerTest | extracted/68/src/cmd/mip/optim.c:174 | c&(c-1) is zero exactly for powers of two |
| TreeOptimizer.Ispow2 | extracted/68/src/cmd/mip/optim.c:172-177 | returns the exponent of a power of two, -1 otherwise |
| OptimNodes.Conval | extracted/68/src/cmd/mip/trees.c:562-606 | a constant absorbs another in place, symbolic name included, or is left alone when a name stands in the way |
| OptimNodes.TowerLeft | extracted/68/src/cmd/mip/optim.c:95-106 | turning three pointers round makes the tree of the regrouped expression out of the same nodes |
| OptimNodes.Merge | extracted/68/src/cmd/mip/optim.c:107-116 | the left constant goes into the right one exactly when they fold, and the two nodes that leave the tree are free |
| OptimNodes.Collapse | extracted/68/src/cmd/mip/optim.c:109-116 | the loop at zapleft ends with no pair of constants left that could be one |
| OptimNodes.Reshape | extracted/68/src/cmd/mip/optim.c:117-140 | folding, shifting, dropping a factor of one and subtracting, with every dropped node free |
| OptimNodes.Optim | extracted/68/src/cmd/mip/optim.c:33-169 | the nodes are rewritten in place into the specified tree, no node is shared or lost, and every node that drops out is marked free; it stops with an error exactly when an & is over something that has not become a name |
| OptimNodes.FreeIffDropped | extracted/68/src/cmd/mip/optim.c:68-122 | after the rewriting a node is free exactly when it is no longer in the tree |
| OptimNodes.StoresOne | extracted/68/src/cmd/mip/optim.c:33-46 | the nodes of a tree hold one expression only, so the statements about Optim are about what is in the nodes |
| IntegerPrinter.HalvesUnsigned | extracted/68/src/lib/libxc/doprnt.c:324-325 | the arithmetic shift with the sign bit cleared halves the unsigned value |
| IntegerPrinter.HalfRadix | extracted/68/src/lib/libxc/doprnt.c:326-327 | dividing by half the radix and doubling gives digit and quotient by the radix |
| IntegerPrinter.Develop | extracted/68/src/lib/libxc/doprnt.c:321-328 | the loop leaves the unsigned digits in the buffer and never overruns it |
| IntegerPrinter.ElevenDigits | extracted/68/src/lib/libxc/doprnt.c:9 | eleven digits are enough in every radix |
| IntegerPrinter.NumeralMeans | extracted/68/src/lib/libxc/doprnt.c:321-328 | the digits stand for the number, in every radix and case |
| IntegerPrinter.Print | extracted/68/src/lib/libxc/doprnt.c:279-346 | sign, precision, zero and sharp flags and padding produce the specified text |
| IntegerPrinter.FieldWidth | extracted/68/src/lib/libxc/doprnt.c:560-601 | the field is as wide as asked for or as its contents |
| IntegerPrinter.ZeroFlagFills | extracted/68/src/lib/libxc/doprnt.c:308-345 | where the zero flag decides and the digits fit, the field has its width without blanks, plus exactly what the sharp flag adds |
| IntegerPrinter.Atol | extracted/68/src/lib/libxc/atol.c:1-25 | reading with wraparound at every digit gives the number of the text, as a word |
| IntegerPrinter.RoundTrip | extracted/68/src/lib/libxc/doprnt.c:279-346 | atol reads every printed signed number back, whatever the flags, width and precision, the least one included |

## Left out

Assembler:

- sdi_bound is not modelled: its general insertion returns the new node rather than the head of the list; the two bounds are built in their final order.
- Operands with an added offset (sdi_off is stored and never used) and complex operands, which skip relaxation.
- A branch to an absolute address or without a symbol: its descriptor has no symbol to resolve; Operand.here covers pass 2 only.
- .org and assignments to the location counter; every other statement is Emit with a fixed size or Even.
- AssemblerPasses.LabelsStay: edge branches are excluded by hypothesis, because the code does move labels behind them.
- The symbol hash table of as68, listing, stabs and relocation records (Put_Rel).
- 32-bit overflow of the growth totals: offsets are unbounded integers.

Switch statements:

- savebc and resetbc, which nest switches through swx.
- Overflow of the 16-bit words of a jump table: labels are symbols of the code, not distances in bytes.
- The VAX branches and case expressions that are not constants.

Symbol tables and loader:

- SymbolHash.Hash: characters count as their codes, so names with characters that the host sign-extends may hash differently.
- Running out of memory (calloc, malloc) and savestr; names are values.
- LinkerModel.Find: the loader's passes keep their table as a sequence, which FlatTable shows to be the numbering of the segmented one; "hash table botch" and table overflow are outcomes of the segmented table only.
- Options -A (incremental load) and -D (padded data), and -B below the end of data (BssBeyond).
- Stab symbols, file-name symbols and the local symbols of the output (ssize, symwrite, the string table), and -x, -X, -S, -y.
- LinkerPassTwo.SecondPass.Load2td: models the -U byte order of the 68000; the host byte order with its displacement overflow messages is left out.
- The chains of lochash are sequences rather than linked nodes, and a symbol number without any entry in its bucket is the same error as one missing from its chain, where the code follows a null pointer.
- A relocation outside its segment or a bad length (WellSized), and a table of contents that points outside the archive.
- Addresses are unbounded integers except inside relocated words.
- LinkerDriver.Link: a link that ends without any symbol after nextsym went stale (DeadSymbols), where symx(nextsym) makes middle look at slots already backed out, and symbols entered by -u and -e.
- LinkerPassOne.Load: names are values, so that names left behind by a stale nextsym keep their letters, where the source frees the string table they point into.
- Malformed files: the errors for an old format, a bad string table index or a mangled table of contents.
- LinearTable.Hash: the same remark on characters as SymbolHash.Hash; ld11's passes beyond its symbol table are left out as easier versions of ld68's.
- Write errors in the buffered streams, and reopening tout after the header of a paged file.

Library and front end:

- QuickSort.Qsort: an array element stands for the es bytes of a source element, so the byte loops of the exchanges are single assignments.
- OptimNodes.Optim: a node has separate fields for pointers and constants, where the source lays them over each other; types are left out, and with them econvert, clocal, SCONV and PCONV, as are FORTRAN calls, operators with side effects and the oflag switch.
- TreeOptimizer.Conval: the operators optim folds; DIV, MOD, shifts and comparisons of conval are not used by it.
- InitWalk.InitStack: braces in initializers (ilbrace, irbrace), strings and unions are left out, and the stack is a sequence whose depth is proved to stay within the ten entries of instack.
- Initializer.Place: floating constants and address constants (fincode, ecode of names) are left out; a long is a number.
- IntegerPrinter.Print: one conversion of a 32-bit value; the format parser, strings, characters and floating point are left out.

Not modelled at all: file opening and reading, temporary files, the download tools, mcc, ar, strip and nm; yacc and lex tables; register allocation and code templates (allo.c, match.c, order.c), whose headers are not in the repository; hide and unhide of names, which the source itself doubts.
