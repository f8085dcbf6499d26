# Icarus Verilog elaboration and constant propagation, verified

This project models parts of the Icarus Verilog compiler and proves properties of them:

- **Constant propagation** (`cprop.cc`): a netlist of nexuses and nodes over 4-state vectors, the
  three rewriting rules, the functor that applies them to a fixed point and the removal of dangling
  constants. A netlist means its set of consistent zero-delay valuations: every nexus carries the
  wire resolution (section 4.6.1 of IEEE 1364-2005) of what drives it. The netlist may be cyclic.
  A run is reported as the chain of the rewritings it made, from the netlist it was given to its
  fixed point. Modules `FourState`, `Netlists`, `Rewriting`, `ConstantRules`, `FusionRule`,
  `CpropProgress`, `CpropSteps`, `DanglingRule`, `Cprop`, `CpropLimits`, `FunctorWalk`. Module
  `CpropReference` says when each rule applies, and when it is harmless, of the nets, nodes and pulls
  alone.
- **Expression widths** (`elab_expr.cc`): the mode-threading `test_width` pass with its one-sided
  re-test, against a two-phase specification that knows no order, and the arithmetic soundness of
  lossless widths. Modules `WidthAnalysis`, `LosslessWidths` (with `PowersOfTwo`).
- **Types and scopes** (`elab_type.cc`, `elab_scope.cc`): type elaboration as a depth-first search
  with marks and a cache, class binding, enumerations, generate loops. Modules `TypeModel`,
  `TypeElaboration`, `ClassBinding`, `Enumeration` (with `BitVectors`), `GenerateLoop`.
- **Selects and concatenations** (`elab_expr.cc`, `elab_lval.cc`, `elab_net.cc`, `netlist.cc`): the
  four copies of the index arithmetic of `+:` and `-:`, the bits of parameter selects, l-value
  concatenations as a linked chain and as a tiling. Modules `Selects`, `LvalConcat`.
- **Folding of shifts and products** (`elab_expr.cc`): module `ShiftFold`.
- **Constructor blending** (`elab_scope.cc`, `Statement.cc`, `PFunction.cc`): module `Constructors`.

`dafny verify dfyconfig.toml` checks everything.

## What turned out false, and exactly when it holds

- Folding a concatenation takes the constants of its inputs as they are driven, although a 2-state
  net would turn x and z bits into 0. The folded value is right, whatever the rest of the design
  does, exactly when no 2-state input nexus is driven with an undefined constant, or not at all
  (`ConstantRules.FoldExactIff`). Where the concatenation alone determines a plain nexus, an inexact
  fold changes the meaning of the netlist (`CpropLimits.FoldMeaningIff`;
  `CpropLimits.FoldChangesMeaning` is the smallest case).
- Fusing part selects fills the gaps of a 2-state nexus with zeros. That is right exactly when the
  nexus is not also driven from outside the node list or has no gap (`FusionRule.FuseExactIff`,
  `FusionRule.HarmfulGap`); otherwise the meaning changes as soon as the outside may drive 1 into a
  gap (`CpropLimits.HarmfulFusionSeen`; `CpropLimits.FusionChangesMeaning` is the smallest case).
- So a whole run keeps the meaning when each rewriting that it made is exact (`Cprop.Run`,
  `CpropSteps.TakenKeeps`). A condition on the netlist beforehand makes every one exact: each 2-state
  nexus that feeds a concatenation or a part select is driven from outside, pulled, or has a driver
  that never becomes an undefined constant (a gate, a mux, a buffer, a part select out of a vector,
  a defined constant); and no 2-state wire is driven both by part selects and from outside
  (`CpropProgress.Clean`).
- The scan of the node list misses one node when the first node visited deletes itself, as a
  flip-flop that feeds itself does, and the list has another node (`FunctorWalk.ScanVisitsAllIff`).
- In a signed enumeration of width 1 the increment is -1: a name after one with value 0 gets -1,
  and no error is reported. Every other inferred value is its predecessor plus one
  (`Enumeration.NextIsPlusOne`, `Enumeration.SignedBitOddity`).
- The four elaborators of indexed selects agree exactly on ranges other than [n:n], or for width 1;
  three of them also refuse an unsigned base that is negative as a 32-bit integer, and the parameter
  elaborator does not (`Selects.ElaborateEverywhere`).
- A byte-aligned part of a string parameter loses its x bits (`Selects.ParamPartSelectBits`), and a
  bit select past the end of a string is x where a part select of width 1 gives 0
  (`Selects.ParamBitSelect`).
- Blending fails an assertion exactly when something has to be pushed in front of a constructor
  body that is missing, with no implicit constructor beside it, or that is a `fork`
  (`Constructors.PClass.BlendClassConstructors`).
- A short unsized literal leaves mode UNSIZED and not LOSSLESS (`elab_expr.cc:7920-7928`), although
  the comment at `PExpr.h:105-109` says otherwise. The model follows the code.

## Model

| member | source | states |
|---|---|---|
| Netlists.SameMeaningTrans | cprop.cc:447-455 | steps that keep the consistent valuations compose, each extending them uniquely by the fillers it adds |
| Netlists.SameMeaningReordered | net_design.cc:1031-1045 | the order of the node list has no part in what a netlist means |
| Rewriting.FilledMeaning | cprop.cc:318-341 | constants on new nets, any number of them, extend every consistent valuation in exactly one way |
| Rewriting.AddConst | netmisc.cc:755-766 | a constant on a new local net extends every consistent valuation in exactly one way |
| Rewriting.SwapDrivers | cprop.cc:116-123 | drivers of one nexus may be exchanged for others of equal effect, even inside a cycle |
| Rewriting.DriversAre | cprop.cc:224-252 | scanning the output links of a nexus finds each of its drivers once |
| ConstantRules.DrivenSettles | link_const.cc:32-137 | a nexus reported constant settles, in every environment, to the vector it is driven with, except that a 2-state net turns x and z into 0 |
| ConstantRules.PullsSettle | link_const.cc:89-105 | with at most one pull or supply, its level is the level guessed for the nexus |
| CpropReference.ConstantIff | link_const.cc:32-137 | a nexus is reported constant if and only if nothing outside the node list drives it and it has one driver, a constant, and no pull, or no driver and at most one pull; and there is one value that it is driven with: that of the constant, the level of the pull, or z |
| CpropReference.FoldIff | cprop.cc:84-126 | a concatenation is folded if and only if it is not transparent and each of its input nexuses is such a constant |
| CpropReference.BypassIff | cprop.cc:154-195 | a mux is bypassed if and only if it has two inputs and a select of one bit whose nexus is such a constant with the bit 0 or 1, and then the input taken is the first or the second |
| CpropReference.FuseIff | cprop.cc:213-295 | the drivers of a nexus are fused if and only if it carries plain wires, and they are part selects into it, pairwise disjoint and inside the vector, and two or more of them, or one if the nexus is 2-state |
| CpropReference.LeftIff | cprop.cc:442-455 | the rules find nothing to do anywhere if and only if no node meets one of these three conditions |
| CpropReference.HarmlessIff | cprop.cc:91-103 | a step is exact if and only if no 2-state input of the fold is driven with an x or z bit, or not at all, and no bit without a driver is filled in a 2-state nexus that is driven from outside |
| CpropReference.SeenIff | cprop.cc:362-439 | a constant dangles if and only if it is all z, or no node reads its nexus and no net there is named in the source, read by an expression or a port of a root module |
| CpropReference.CleanIff | cprop.cc:319-340 | what a clean netlist is, said of its nets, nodes and pulls alone |
| ConstantRules.FoldExactIff | cprop.cc:91-103 | the folded value is the driven value in every environment if and only if no 2-state input carries an undefined constant |
| ConstantRules.InexactFold | cprop.cc:97-101 | otherwise the folded value differs on every valuation in which the inputs are settled |
| ConstantRules.FoldKeepsMeaning | cprop.cc:84-126 | replacing a concatenation of constants keeps every consistent valuation and adds none |
| ConstantRules.BypassKeepsMeaning | cprop.cc:154-195 | replacing a mux with a constant defined select by a buffer to the selected input keeps the valuations, 2-state select or not |
| ConstantRules.ReplaceNode | cprop.cc:187-193 | a node may be replaced by one that drives the same bits whenever everything else is settled |
| FusionRule.TiledByNeighbours | cprop.cc:270-295 | for parts in base order, comparing neighbours and the last end decides whether the whole list fits without overlap |
| FusionRule.TiledApart | cprop.cc:270-282 | sorted parts that do not overlap their neighbours are pairwise disjoint |
| FusionRule.TiledPartsResolve | cprop.cc:202-212 | the resolution of disjoint part selects is the one part that covers the bit, and z in a gap |
| FusionRule.JoinedPins | cprop.cc:318-341 | the concatenated inputs are the parts at their bases with the filler in the gaps |
| FusionRule.LaidBits | cprop.cc:318-341 | the layout is as wide as the nexus, and each of its bits is that of the covering part, or the filler |
| FusionRule.GapFillsNew | cprop.cc:297-310 | the number of components counted beforehand is the number of pins connected |
| FusionRule.FusedBitSettles | cprop.cc:224-341 | every bit of the nexus settles after fusion as it did with the separate parts |
| FusionRule.FuseKeepsMeaning | cprop.cc:312-347 | replacing the parts by the concatenation keeps every consistent valuation and adds none |
| FusionRule.FuseExactIff | cprop.cc:319-340 | fusing is exact in every environment if and only if no externally driven 2-state nexus has a gap |
| FusionRule.HarmfulGap | cprop.cc:323-325 | where it is not, a 1 driven from outside into the gap becomes 0 |
| FusionRule.SortSorts | cprop.cc:267-268 | sorting puts the parts in base order and keeps each of them |
| CpropProgress.CleanFolds | cprop.cc:91-103 | in a clean netlist every fold that can be made is exact |
| CpropProgress.CleanFuses | cprop.cc:319-340 | and so is every fusion |
| CpropProgress.FoldImproves | cprop.cc:84-126 | a fold keeps the netlist well formed, lowers the measure, keeps the meaning when it is exact, and is exact in a clean netlist, which stays clean |
| CpropProgress.BypassImproves | cprop.cc:154-195 | the same for a mux, where every step is exact |
| CpropProgress.FuseImproves | cprop.cc:312-347 | the same for a fusion |
| CpropProgress.FuseWeight | cprop.cc:312-347 | twice the part selects plus the concatenations plus the muxes drops at every fusion |
| CpropProgress.PinWidths | cprop.cc:287-341 | the widths of the pins of the new concatenation add up to the width of the nexus |
| CpropSteps.FusedIntoImproves | cprop.cc:297-347 | a fusion from beginning to end, fillers included, keeps the netlist well formed and clean, lowers the measure, and keeps the meaning when it is harmless |
| CpropSteps.MadeImproves | cprop.cc:40-55 | so does whatever rewriting is made at a node |
| CpropSteps.TakenTrans | cprop.cc:447-455 | the chains of two passes make one, and so do the fillers they add |
| CpropSteps.TakenKeeps | cprop.cc:447-455 | a chain of rewritings keeps the meaning if each of them is exact, each one is in a clean netlist, and each one lowers the measure |
| CpropSteps.TakenApply | cprop.cc:447-455 | in a chain the condition of a fold, a bypass or a fusion holds at every step, and each is exact if and only if it is harmless |
| CpropLimits.FoldMeaningIff | cprop.cc:84-126 | where a concatenation alone determines a plain 4-state nexus and some valuation is consistent, folding it keeps the meaning of the netlist if and only if the fold is exact |
| CpropLimits.HarmfulFusionSeen | cprop.cc:319-340 | a fusion that fills a gap of an externally driven 2-state nexus changes the meaning as soon as a consistent valuation has an outside 1 there |
| CpropLimits.FoldChangesMeaning | cprop.cc:97-101 | a concatenation of an undriven 2-state net folds to z although it carries 0: the valuations differ |
| CpropLimits.FusionChangesMeaning | cprop.cc:323-325 | fusing one part of a 2-state variable loses the 1 that a procedure assigns to the other bit |
| DanglingRule.RemovalKeepsLive | cprop.cc:362-439 | removing any set of dangling constants leaves the value of every nexus that is read or carries an observable net |
| DanglingRule.RemovalIndependent | cprop.cc:462-464 | removing constants neither makes nor unmakes another one dangling, so the order does not matter |
| FunctorWalk.Scan | functor.cc:159-189 | which nodes a scan visits, and which are left in which order, when visited nodes delete themselves: each node visited is the one that followed the last, round the end, among those still there, until the first comes again |
| FunctorWalk.RemainingIs | functor.cc:159-189 | a scan leaves exactly the nodes that do not delete themselves or were never visited, in list order |
| FunctorWalk.ScanOn | net_design.cc:1047-1071 | from the front of the list to its anchor every node is visited once and only the survivors stay |
| FunctorWalk.ScanVisitsAllIff | net_design.cc:1047-1071 | a scan visits every node exactly once if and only if its first node does not delete itself or is alone |
| Cprop.Design.AddNode | net_design.cc:1031-1045 | a new node is inserted at its place, everything else stays |
| Cprop.Design.DelNode | net_design.cc:1047-1071 | exactly one node goes, the others keep their order, and a scan that was to continue at it continues at the node that follows it, round the end of the list, or nowhere if it was alone |
| Cprop.Design.MakeConst | netmisc.cc:755-781 | the netlist grows by exactly one constant on one new net |
| Cprop.Design.ConnectPins | cprop.cc:318-341 | the pins and the filler constants are those of the layout, and the rest of the netlist is untouched |
| Cprop.Design.Fuse | cprop.cc:297-347 | the parts are gone, one concatenation drives the nexus, and every gap has its constant |
| Cprop.CountPins | cprop.cc:297-310 | the components counted are those that the layout needs |
| Cprop.CollectParts | cprop.cc:219-252 | the parts are collected if and only if nothing but part-to-vector selects drives the nexus |
| Cprop.NoOverlaps | cprop.cc:270-295 | the overlap and tail checks accept exactly the tiled lists |
| Cprop.FusableIffFits | cprop.cc:254-295 | the checks accept if and only if the drivers are pairwise apart and inside the vector |
| Cprop.FoldInputs | cprop.cc:91-103 | there is a folded constant if and only if every input nexus has one constant driver and no pull, or no driver and at most one pull, and nothing from outside; and it is the concatenation of the values driven there, padded with z |
| Cprop.CpropFunctor.LpmConcat | cprop.cc:84-126 | exactly when it is not transparent and all its input nexuses are constant (in the sense of CpropReference.ConstantIff), the node is replaced by the folded constant and counted once; otherwise nothing changes |
| Cprop.CpropFunctor.LpmMux | cprop.cc:154-195 | exactly when there are two inputs and the nexus of the one-bit select is constant with bit 0 or 1, the mux is replaced by a buffer to the input that the bit selects and counted once; otherwise nothing changes |
| Cprop.CpropFunctor.LpmPartSelect | cprop.cc:213-348 | exactly when the vector carries plain wires and all its drivers are part selects into it, disjoint, inside, and enough of them, they are fused into one concatenation with its fillers, counted once; otherwise nothing changes |
| Cprop.CpropFunctor.Visit | cprop.cc:40-55 | the netlist after the visit is the one rewriting that applies at the node, counted once; where none applies nothing changes but that a constant is collected |
| Cprop.CpropFunctor.FunctorNodes | functor.cc:159-189 | the rewritings of a pass form a chain from the netlist before it to the netlist after it, one for each that was counted; a pass that counts nothing left the netlist alone, found nothing to do at any node, and collected every constant |
| Cprop.VisitedNext | functor.cc:173-184 | an unchanged list is scanned once round from the anchor |
| Cprop.ConstantIdsAre | cprop.cc:460-461 | the constants collected from a list without repeats are each there once |
| Cprop.Propagate | cprop.cc:442-455 | the loop ends, having made a chain of rewritings from the initial netlist to the final one, at most as many as the initial measure; in the final one no concatenation of constants, no mux with a constant defined select and no vector driven by disjoint part selects is left; and exactly its constants are collected, each once |
| Cprop.DeleteDanglingConst | cprop.cc:362-439 | the constant is deleted if and only if it is all z, or nothing reads its nexus and no net there can be observed |
| Cprop.Sweep | cprop.cc:460-464 | exactly the constants that dangled beforehand are gone, whatever the order |
| Cprop.Run | cprop.cc:442-469 | a whole run, on any netlist: it ends; a chain of rewritings leads from the initial netlist to the fixed point, where nothing of the three kinds is left, and whose meaning is the initial one, extended by the fillers, if each rewriting is harmless, as all are in a clean netlist; then exactly the constants go that are all z or that nothing reads and no one sees, and no value that anyone sees changes |
| WidthAnalysis.OrderIrrelevant | elab_expr.cc:780-874 | exchanging operands anywhere in the tree changes neither the final mode nor the width, despite the one-sided re-test |
| WidthAnalysis.LeavesIff | elab_expr.cc:7910-7940 | the mode turns lossless, or the integer width counts, or the tree is signed, exactly as some or every leaf says, wherever in the tree it stands |
| WidthAnalysis.MixedIff | elab_expr.cc:804-823 | an expression mixes signs, which raises a lossless mode to UPSIZE, exactly if some operator or ternary in it has one operand whose leaves are all signed and one with an unsigned leaf |
| WidthAnalysis.WidestLeaf | elab_expr.cc:825-874 | where the mode does not expand, the width is the greatest width of a leaf: some leaf attains it and none exceeds it, a short unsized literal counting as an integer |
| WidthAnalysis.WidestSum | elab_expr.cc:832-846 | where it does, the width is the greatest that adds up along the tree: the sum of two widths at a product, one more than an operand at a sum, that of an operand elsewhere |
| WidthAnalysis.OnceEach | elab_expr.cc:785-801 | one test of each operand leaves the attributes of the final mode on every node below |
| WidthAnalysis.FirstTwice | elab_expr.cc:799-801 | when the second operand raises the mode to lossless, testing the first again gives it the lossless attributes and touches nothing of the second |
| WidthAnalysis.RecordedRaised | elab_expr.cc:825-830 | attributes recorded in a lossless mode stay valid when an ancestor raises it to UPSIZE |
| WidthAnalysis.WidthTester.TestLeaf | elab_expr.cc:7910-7940 | a literal or identifier gets the width and leaves the mode of the two-phase specification |
| WidthAnalysis.WidthTester.TestWidth | elab_expr.cc:780-874 | the exit mode is lossless if and only if the entry mode was or some leaf forces it; the width is then the greatest that adds up along the tree, and otherwise the greatest width of a leaf; at every node below, the width, signedness and least width recorded are those that its own leaves give in the final mode; and each leaf was tested at most twice |
| WidthAnalysis.WidthTester.TestUnary | elab_expr.cc:8369-8415 | a context-determined unary operator passes width and mode through, and both are those that the leaves below it give |
| WidthAnalysis.WidthTester.TestOperands | elab_expr.cc:785-801 | after the re-test both operands have the widths of the final mode |
| WidthAnalysis.WidthTester.TestBinary | elab_expr.cc:780-874 | the same as for the whole tree, at a binary operator: a product adds widths only in a mode that expands |
| WidthAnalysis.WidthTester.TestTernary | elab_expr.cc:8098-8168 | the same at a ternary |
| LosslessWidths.EvalWraps | elab_expr.cc:825-846 | at any width, wrapping at every operator gives the exact integer modulo a power of two |
| LosslessWidths.ExactFits | elab_expr.cc:832-846 | the exact integer fits in the lossless width of the tree |
| LosslessWidths.WidthIsLossless | elab_expr.cc:832-873 | whenever the final mode expands, evaluation at the returned width or any greater one is exact, for all-signed trees over + - * ~ and ternary and all-unsigned ones over + * and ternary |
| LosslessWidths.ExactableIff | elab_expr.cc:832-873 | the trees meant are those in which every operator is one of these and every leaf has the one signedness |
| LosslessWidths.LeavesFitIff | elab_expr.cc:832-873 | and the values meant are those that fit the own width of each leaf |
| LosslessWidths.OutsideTheClaim | elab_expr.cc:833-837 | unary minus and unsigned subtraction are not exact at the lossless width |
| TypeModel.BoundedNoCycle | elab_type.cc:52-64 | a type from which every way down ends reaches no cycle |
| TypeModel.DenoteUnique | elab_type.cc:42-68 | what a type denotes does not depend on how far elaboration is allowed to go |
| TypeModel.DenoteBuilt | elab_type.cc:70-263 | what a type denotes is built from what its parts denote: the vector, the packed array over its base, the enumeration, and the struct with its flags and one field for each declared name, in order, over its own dimensions |
| TypeModel.ArrayIsWrapped | elab_type.cc:354-398 | working through the dimensions from the left gives the type that the rightmost dynamic dimension or queue wraps around the rest |
| TypeModel.RangesWrapped | elab_type.cc:331-352 | ranges alone give one unpacked array that has them all, in order, over the base |
| TypeModel.ArrayErrorsIff | elab_type.cc:265-352 | an unsupported mixture is reported if and only if a dimension or the base below it makes one, and a queue bound if and only if some bound is undefined or below 0 |
| TypeElaboration.NoCycleBounded | elab_type.cc:52-64 | a type that reaches no cycle ends every way down within the number of types |
| TypeElaboration.CacheReaches | elab_type.cc:48-50 | the cache holds everything that can be reached from the types it holds |
| TypeElaboration.CyclesReported | elab_type.cc:52-60 | a cached type reaches a cycle if and only if it reaches a type that has been reported circular, so no cycle goes unreported |
| TypeElaboration.VisitBounded | elab_type.cc:52-64 | every way down from a type ends, within the types elaborated before it, unless it comes to one that has been reported |
| TypeElaboration.SoundTold | elab_type.cc:42-68 | of a type that reaches no cycle, exactly what is wrong with it has been reported, once it is cached |
| TypeElaboration.CacheDenotes | elab_type.cc:48-50 | and what it holds for a type without cycles is what that type denotes |
| TypeElaboration.TypeElaborator.ElaborateRoot | elab_type.cc:42-68 | from clean flags, for any types: every flag is cleared again; exactly the reachable types join the cache, and no old entry changes; each type is elaborated once, from parts that were elaborated before it or found circular, and cached as what that gives, or as an integer if it was found circular itself, which only types on a cycle are; exactly what is wrong with it, its parts being these, is reported; a type reaches a cycle if and only if it reaches one that was found circular; and a type that reaches none gives what elaboration without a cache gives |
| TypeElaboration.TypeElaborator.Elaborate | elab_type.cc:42-68 | at every call the flags are as before and all this holds of what has been elaborated; the answer is what is cached, or an integer and a report if the type is being elaborated, or else what elaborating it gives, even where an integer has meanwhile been cached for it |
| TypeElaboration.TypeElaborator.ElaborateRaw | elab_type.cc:139-215 | packed arrays, arrays and enumerations are built from what their base is given as, and exactly what is wrong with them on it is reported |
| TypeElaboration.TypeElaborator.ElaborateTypedef | elab_type.cc:427-464 | the same for references: an undefined or unplaced definition gives an integer and an error, a forward declaration of another kind an error |
| TypeElaboration.TypeElaborator.ElaborateStruct | elab_type.cc:217-263 | the result carries the declared union flag and is packed if it or its soft union says so; its members are elaborated in order, each name gets its own dimensions over what its member type was given as, and exactly the errors of the names are reported |
| TypeElaboration.TypeElaborator.ElaborateNames | elab_type.cc:240-259 | there is one field for each declared name, in order, with the member type under its own dimensions; and exactly these errors: dimensions that cannot be, and in a packed struct defaults and members that are not packed |
| TypeElaboration.TypeElaborator.ElaborateArray | elab_type.cc:354-398 | ranges gather into one unpacked array, with all of them in order, until a dynamic dimension or a queue wraps them around a supported element; and the errors are those of an unsupported mixture and a bad queue bound, exactly |
| ClassBinding.LinkClosesCycle | elab_scope.cc:594-608 | a link closes a cycle if and only if the base already reaches the derived class |
| ClassBinding.NotVisited | elab_scope.cc:597-598 | no walk over the ancestors comes to a class twice |
| ClassBinding.MissingCloses | elab_scope.cc:594-610 | a link that was asked for and is not there would close a cycle in the final graph |
| ClassBinding.ClassBinder.BindSuper | elab_scope.cc:574-611 | the link is set unless it would close a cycle, the graph stays acyclic, and the walk ends |
| ClassBinding.ClassBinder.BindAll | elab_scope.cc:626-627 | the links asked for are set one by one, and one is missing at the end only if it would close a cycle; one cycle is reported for each that is missing, and one error besides for each base that is no class; nothing else is linked, and old links stay; with no cycle asked for every link is there |
| BitVectors.AddIsSum | verinum.cc:1062-1106 | ripple-carry addition adds the numbers modulo a power of two |
| BitVectors.ExtendKeepsInt | verinum.cc:646-676 | extending by the sign keeps the number |
| Enumeration.PaddingKeepsValue | verinum.cc:646-676 | padding a constant keeps its number |
| Enumeration.TrimIsExact | elab_scope.cc:273-336 | a defined constant that is too wide is accepted if and only if its number is representable, and then keeps it |
| Enumeration.NextIsPlusOne | elab_scope.cc:365-370 | the inferred value is the predecessor plus one if and only if the enumeration is not signed of width 1 with predecessor 0 |
| Enumeration.SignedBitOddity | elab_scope.cc:202-213 | two names over a signed base of width 1 are numbered 0 and -1 without an error |
| Enumeration.SoundNumbering | elab_scope.cc:199-373 | without errors and over defined values the numbers are distinct and representable, constants keep theirs, inferred ones follow their predecessors |
| Enumeration.FitExplicit | elab_scope.cc:237-341 | an explicit value is padded or cut, has one error for each thing that is wrong with it, ends the enumeration exactly if a 1 just above the type is cut off an unsigned constant, and is accepted if and only if it may be |
| Enumeration.CheckTrim | elab_scope.cc:280-321 | the loop accepts the bits to be cut exactly when they copy the top bit that stays or, in an unsigned enumeration, are all zero |
| Enumeration.ElaborateEnumeration | elab_scope.cc:182-376 | whatever can be numbered (all names and numbers different and in range, each the one given or one more than that before) is, with these numbers; over defined values, but for the one oddity, there is no error if and only if it can be; and in every case, errors or not, the members and the number of errors are those of Enumeration.ReckonedOnce |
| Enumeration.AcceptedIff | elab_scope.cc:182-376 | over defined values and outside the oddity every name is in order if and only if some numbering of them exists |
| Enumeration.AcceptsNumbering | elab_scope.cc:182-376 | a numbering that exists is the one assigned |
| Enumeration.ReckonedOnce | elab_scope.cc:182-376 | an enumeration with any errors has one outcome: each name comes to its constant, to one more than the latest value, to 0 or to nothing; it becomes a member unless an earlier name with a value is called the same; there is one error for each mistake in each name; and a constant that stops it ends it |
| GenerateLoop.PrefixDistinct | elab_scope.cc:1044-1056 | no two scopes of a loop share a genvar or a name |
| GenerateLoop.EndsUniquely | elab_scope.cc:1036-1141 | a loop ends by itself after one number of bodies at most |
| GenerateLoop.EndsIff | elab_scope.cc:1036-1141 | a loop completes if and only if there is a sequence of scopes that starts with the first value and steps to the next, each under a number that holds its value in 32 bits and is not taken, with the test true at each and false after the last |
| GenerateLoop.StopsFurthest | elab_scope.cc:1045-1132 | where a loop stops otherwise, no longer sequence of scopes could have been begun |
| GenerateLoop.NotEnding | elab_scope.cc:1045-1132 | a loop with a value that neither runs nor ends it never completes |
| GenerateLoop.Container.GenerateScopeLoop | elab_scope.cc:964-1148 | it succeeds if and only if such a sequence of at most 500000 scopes ends, and has then added exactly it and cleared the genvar; it never runs more than 500001 bodies; and otherwise the scopes left are the longest sequence that can be begun, and what stops it determines the error or failed assertion and the genvar left set |
| Selects.CanonicalInRange | netlist.cc:776-810 | indices inside the declared ranges have positions inside the vector |
| Selects.CanonicalInjective | netlist.cc:776-810 | no two elements of a packed array share a position |
| Selects.NextElement | netlist.cc:776-810 | the element after one in declared order, the last dimension varying fastest, is one position higher |
| Selects.CanonicalOnto | netlist.cc:776-810 | every position of the vector is that of some element |
| Selects.WrapsIff | elab_expr.cc:7193-7220 | a base is refused if and only if it is unsigned and negative as a 32-bit integer |
| Selects.SbToIdx | netlist.cc:776-810 | working from the innermost dimension out finds the position, the last dimension varying fastest |
| Selects.CoversSelected | elab_expr.cc:7244-7250 | the positions covered are exactly those of the selected declared indices |
| Selects.ExprIdx | elab_expr.cc:7193-7250 | in expressions the part starts at the lowest selected position, except on a range [n:n], where it starts at the base, less the width but one for `+:`; there is none if and only if the base wraps around |
| Selects.LvalIdx | elab_lval.cc:948-1010 | in l-values likewise, but on a range [n:n] it starts at the base for both |
| Selects.NetIdx | elab_net.cc:287-381 | on nets the bounds are those of the selected indices, and there is no part if and only if the base wraps around or the part misses the vector |
| Selects.ParamIdx | elab_expr.cc:6696-6724 | on parameters the part starts at the lowest selected position, always |
| Selects.ElaborateEverywhere | elab_expr.cc:7244-7250 | all four agree on every base that does not wrap around if and only if the range is not [n:n] or the width is 1; the net and parameter elaborators are always right |
| Selects.ElaborateUpAndDown | elab_net.cc:338-349 | `x[m +: w]` and `x[m + w - 1 -: w]` elaborate to the same part on nets and parameters, and in expressions and l-values if and only if the range is not [n:n] or the width is 1 |
| Selects.ParamPartSelectBits | elab_expr.cc:6394-6419 | each bit is the declared one, x before the parameter and after a sized one, the sign extension after an unsized one |
| Selects.ParamSelect | elab_expr.cc:6646-6724 | every selected index finds its own bit, whichever way the range runs |
| Selects.ParamBitSelect | elab_expr.cc:6476-6493 | a bit select gives the bit that a part select of width 1 gives, except after the end of a string |
| LvalConcat.ElaborateLval | elab_lval.cc:117-159 | walking the tree, the chain holds one node for each signal reached that may be assigned, the rightmost first, with its name and width, ends, and is unsigned; and there is one error for each position reached where something fails, is missing, is repeated, or is an operand that is not packed |
| LvalConcat.ElaborateConcat | elab_lval.cc:131-158 | the same for the operands of one concatenation |
| LvalConcat.LeavesAre | elab_lval.cc:117-159 | the operands that survive are the signals at the positions reached, in order, of which no concatenation above is repeated and which are packed unless they stand alone |
| LvalConcat.ErrorsAre | elab_lval.cc:117-159 | and nothing in the tree is wrong if and only if no position is listed as wrong |
| LvalConcat.LinkBefore | elab_lval.cc:147-156 | the old chain hangs at the end of the new one, and no node is lost or repeated |
| LvalConcat.SlicesRestore | elab_lval.cc:112-114 | slices taken from the least significant bit up give back the value |
| LvalConcat.SlicesShaped | elab_lval.cc:112-114 | every operand gets as many bits as it is wide |
| LvalConcat.TilingIsSlicing | elab_net.cc:130-167 | the nested part selects of the net form bring each operand the bits that the procedural chain gives it |
| LvalConcat.ElaborateLnet | elab_net.cc:45-171 | there is a net if and only if no position in the tree is wrong in this way, and it lays every signal leaf just above all those to its right |
| LvalConcat.TileOperands | elab_net.cc:130-167 | counting the width down gives every operand the width of the later ones as its offset |
| ShiftFold.ShiftFoldIsExact | elab_expr.cc:1552-1691 | every special case of a shift evaluates to the general shift, for all operand values |
| ShiftFold.ShiftNumber | elab_expr.cc:1552-1691 | the general shift of a defined vector multiplies by a power of two modulo its size, or divides by one, rounding down, with the sign if arithmetic |
| ShiftFold.ShiftDecided | elab_expr.cc:1552-1691 | which case of a shift is folded, and to what, in terms of the operands alone |
| ShiftFold.MultFoldIsExact | elab_expr.cc:1060-1096 | every special case of a product with a constant evaluates to the general product |
| ShiftFold.MultKept | elab_expr.cc:1060-1096 | a product is kept unless one operand is a constant that is 0, beside a 2-state operand, or has an undefined bit, beside another; then it is 0 or x |
| ShiftFold.ZeroNeedsTwoState | elab_expr.cc:1082-1088 | without the test for a 2-state operand the folded zero would be wrong |
| Constructors.PBlock.PushStatementFront | Statement.cc:153-162 | the shifting loop puts the statement first and keeps the others in order |
| Constructors.PBlock.ExtractChainConstructor | Statement.cc:126-139 | a leading chained call is taken out and the others keep their order |
| Constructors.PBlock.PushThenExtract | Statement.cc:126-162 | pushing a call and extracting it restores the block |
| Constructors.PBlock.ExtractThenPush | Statement.cc:126-162 | so does extracting a call and pushing it back |
| Constructors.PFunction.PushStatementFront | PFunction.cc:45-67 | a body that is no block is wrapped in one, and the statement comes first |
| Constructors.PFunction.ExtractChainConstructor | PFunction.cc:74-87 | a leading call is taken out of the body, whether or not the body is a block |
| Constructors.PClass.BlendClassConstructors | elab_scope.cc:404-476 | the surviving constructor runs the chained call, given or implied, then the implicit statement, then the rest of its body in order, each once; it fails an assertion exactly when there is a call or statement to push and the body is a fork, or is missing with no implicit constructor beside it |
| Constructors.PushUnlessMissing | elab_scope.cc:453-475 | the statement is put in front if there is one, and that fails exactly if the body cannot take it |

## Left out

- Netlists: drive strengths, delays, wired-and and wired-or nets, and the coercion of 2-state nets at single pins: a nexus is 2-state or not as a whole.
- Netlists: flip-flops, logic gates, comparators and adders appear as opaque nodes with one output each; a device with several outputs is several nodes. Self-deletion of flip-flops is modelled in `FunctorWalk` only.
- Netlists: `NetSubstitute` drivers and the caching of `driven_` (`link_const.cc:34-37`) are not modelled; a `NetTran` is a flag that makes its nexus externally driven; a root input with a pull counts as pulled.
- Netlists: nets and then the node outputs of a nexus are scanned, in list order; the original's order of links is finer but decides nothing.
- Cprop.Propagate: that no step applies at the end, and that every constant is collected, is claimed for netlists without self-feeding flip-flops. Deleting one is not counted, so a pass may end the loop although it removed a driver or missed a node; and what a register holds needs a timed semantics.
- DanglingRule.RemovalKeepsLive: two nexuses joined by a `NetTran` are independent here, each driven from outside. The pins of a `NetTran` are passive (`net_tran.cc:51-52`) and do not count as uses, so a constant that is needed only through one is deleted, and the model does not see the loss.
- Cprop: widths, bases and counts are unbounded integers, so an unsigned overflow of base plus width (`cprop.cc:273`) is not modelled.
- WidthAnalysis: shifts, powers, comparisons, concatenations, casts, reals, strings, class types and `gn_strict_expr_width_flag` are outside the fragment; identifiers are taken as resolved.
- TypeElaboration: one scope's cache; package-qualified references, type parameters and classes that are not found. Range expressions are given as evaluated.
- TypeElaboration.TypeElaborator.ElaborateStruct: the check that the members of a packed union have equal widths (`netstruct.cc:64-75`) is not modelled; it only reports.
- TypeElaboration: an error that is reported twice for one type counts as one.
- ClassBinding: a base type that elaborates to no class is one case; how it elaborates is not modelled.
- Enumeration: string constants and the one-bit fill literals `'0`, `'1`, `'x`, `'z` as explicit values, and the registration of names in the scope (`elab_scope.cc:351-352`).
- GenerateLoop: evaluating the test and the step is a function of the genvar; elaborating the body of a scope is not modelled.
- Selects: selects of sub-arrays, struct members and unpacked words, which rest on `prefix_to_slice`; undefined and variable bases; the warnings.
- Selects.ParamPartSelectBits: the widths are positive and lengths fit a machine word.
- LvalConcat: how a single identifier elaborates; a `NetAssign_` has a width and a name. The bidirectional form uses the same offsets and is not modelled apart.
- ShiftFold: real operands, and the sign flag of the folded expressions.
- Constructors: which scope a constructor belongs to, and source positions.
- Deleting objects, error texts, warnings and debug output: an error is a count, or a name where a property needs one.
