# Verified models of GT.M internals

Dafny models of seven parts of GT.M and proofs about them. `dafny verify dfyconfig.toml` checks the
whole project.

- **Local variables** (`LocalVars`, `LvGc`, `XnewPop`). Base variables carry a total count and a container
  count; their trees hold containers that refer to other base variables, so the heap is any graph. A slot
  of the heap is its place in a sequence. `LvGc` is the mark-and-sweep collector laid over the counts,
  with the reference-count macros it uses; `XnewPop` is the pop of an exclusive NEW as a copying
  collector with forwarding pointers.
- **Boolean expressions** (`BoolTriples`, `BoolShort`, `BoolFull`, `BoolCompile`, `BoolFold`). Source trees,
  the triples of the execution chain and a machine that runs them. `BoolShort` and `BoolFull` give the code
  of the two schemes as functions of the tree and prove what it does; `BoolCompile` rewrites the chain in
  place as the source does and is proved to leave that code; `BoolFold` is constant folding. Operand
  values and relations are abstract (`Interp`).
- **Object files** (`ObjFormat`, `ObjFile`, `IncrLink`, `ObjLink`, `LabelMerge`). The writer, down to bytes,
  and the linker's address fixing on any bytes; `ObjLink` puts the two together.
- **Temporaries and i386 code** (`TempAlloc`, `FrameLayout`, `I386Code`). Slot reuse, frame offsets,
  addressing forms and relative jumps, decoded as the Intel 64 and IA-32 Software Developer's Manual,
  Volume 2A, section 2.1.5 says.
- **Block table** (`Lru`, `BlockTable`). Hash chains and recency queue as a least-recently-used map.
- **Block certification** (`KeyBlock`, `CertBlk`, `BlockWrite`, `CertBitmap`). Local checks on
  prefix-compressed keys against the order of the whole block; what the certifier makes of a block written
  from keys and children; the word-wise checks of a bitmap.
- **Block allocation** (`Bitmap`, `BitmapSearch`, `MasterMap`, `GetFree`) and the **buddy list**
  (`BuddyList`).

`Options` and `Bytes` hold what several of them share.

## What the proofs showed

Where the code and what is asked of it part, the exact condition is proved.

- The garbage collector marks what the stack only remembers. A variable held by an uncounted parameter
  entry is marked and can still be freed, when the only other reference to it is in an orphan
  (`UncountedRootNotShielded`); the marked variables survive exactly when every one is counted from outside or held
  by a marked one (`LvvalGc`).
- The comment at the task cycle counter says that all active variables are reset when it wraps. The loops
  reset those of the current symbol table, once for each table, so the new stamp is unused exactly when the
  counter did not wrap or no variable of another table bears 1 (`IncrLvTaskCycle`). The pop of an exclusive
  NEW passes over a variable that bears it: a container into the popped table is left exactly when the pass
  did not see it or took its variable for visited (`NoPointerLeft`), and `WrapLeavesPointer` is a heap of
  two variables where that happens.
- Full Boolean evaluation protects plain variables from later side effects, but not a subscripted node nor
  a plain variable under a unary operator: those are kept by address (`CapturedExactly`).
- `bm_find_blk` answers block 3 of a byte that holds an invalid pattern and no available block
  (`AnswerRight`, and `InvalidAnswered` for one such map). Runs of transitions never make such a pattern (`AfterValid`).
- `bm_getfree` uses index 0 of the write set for "not found" and compares its way back with an unsigned
  bound. Every block it gives out is new to the write set exactly from the states that expose no map (`Safe`):
  no marked map has bits recorded below the index where the search starts or at index 0; and if it starts at
  index 0, every marked map has an element outside a transaction, and within one there is an element at index
  0, of none of the marked maps that have a block. From those states no run goes wrong (`GetMany`), from any
  other some search does (`GoesWrong`). Both callers, in `t_end.c` and `op_tcommit.c`, pass the number of
  elements there are before the first one of a map, which is at least 1 there, so that they are in such a
  state (`CallersSafe`).
- `bml_find_free` with a hint in the byte just past the map also searches four blocks past its end
  (`BmlFindFree`).
- `alloc_reg` takes the lowest free slot. Where back pointers are just the uses, no assignment that keeps
  needed values apart takes fewer slots of any class, and the error for too many temporaries comes only if
  none does with the slots there are (`AllocReg`).
- Base EBP with offset zero is emitted in a form that reads as an address without base (`DecodesBack`).
- The predicted form of the jump behind a call is contradicted for one distance, when the table offset
  is zero (`EmitCallTriple`).

## How members are stated

Structures that the source updates in place are classes, and their methods are proved against functions
and predicates of the state; what the source promises is then proved about those. A linked list or queue
is the sequence of its elements, a pointer is a position. `Valid`, `Inv`, `Exact` and the like are the
invariants that every method keeps.

Where a result is about what the source's loops go through (the roots of a collection or of the pop, the
triples that are not skipped), the method takes that as a ghost set, and its requires lists by place what is
in it (`LvvalGc`, `CheckXnewVarAliases`, `AllocReg`).

## Model

| member | source | states |
|---|---|---|
| `LvGc.SymVal.LvvalGc` | sr_port/alias_funcs.c:995-1192 | from exact counts, a collection stamps exactly what the roots reach, the roots being listed by their places (every hash table entry; each saved and pending value of the stack entries before the first one of another table, a parameter entry with no saved value included; current and saved values of the frames of this table; the return argument); it leaves counts and free list exact, frees every unreachable variable (cycles and self references included), changes no surviving value or tree, and answers the number of unreachable variables; the marked ones survive if and only if each is counted outside the table or held by a marked one |
| `LvGc.SymVal.MarkPhase` | sr_port/alias_funcs.c:1028-1133 | steps 3 to 9: a slot bears the new stamp exactly when it is reachable through containers from the roots, listed by their places in hash table, stack entries, transaction frames and return argument; nothing but stamps changes |
| `LvGc.RootsByIndex` | sr_port/alias_funcs.c:1028-1133 | a set that holds just the values at those places is what the marking loops go through: missing saved values are passed over, their pending values are not, and the stack ends at the first entry of another table, the frames at the first foreign one |
| `LvGc.SymVal.Mark` | sr_port/alias_funcs.c:1031-1133 | the marking half alone, with stamps older than the current cycle given |
| `LvGc.SymVal.MarkReachable` | sr_port/alias_funcs.c:139-163 | marking one variable stamps it before descending, so it ends on cyclic heaps; only slots of the reachable set are stamped, and what was stamped is followed |
| `LvGc.SymVal.MarkTree` | sr_port/alias_funcs.c:784-810 | the walk of one tree follows every container in it, subscript trees included |
| `LvGc.SymVal.MarkTable` | sr_port/alias_funcs.c:1033-1042 | every entry of the symbol table is marked |
| `LvGc.SymVal.MarkStack` | sr_port/alias_funcs.c:1043-1109 | every saved or pending value on the stack is marked, up to the entry that saved the previous table; a missing saved value does not end the walk |
| `LvGc.SymVal.MarkTp` | sr_port/alias_funcs.c:1110-1123 | current and saved values of the transactions of this table are marked, up to the first frame of another table |
| `LvGc.SymVal.ListSlots` | sr_port/alias_funcs.c:1013-1027 | the list holds each slot in use once, in order, without the ZSEARCH variable |
| `LvGc.SymVal.Sweep` | sr_port/alias_funcs.c:1134-1174 | the sweep leaves counts exact, counts every unstamped slot once even if an earlier kill already freed it, and empties each of them |
| `LvGc.SymVal.KillOrphan` | sr_port/alias_funcs.c:1149-1171 | one orphan: its count is raised, its tree killed, its reference dropped; no count goes below what is held and no shielded variable dies |
| `LvGc.SymVal.KillArray` | sr_port/lv_killarray.c:34-69 | killing a tree releases each container in it once, post-order, and turns its references into none; every other slot takes at most the steps a release can cause |
| `LvGc.SymVal.DecrAcRef` | sr_port/alias.h:190-213 | releasing a container keeps the counts exact and frees the target exactly when nothing is left |
| `LvGc.SymVal.DecrBaseRefNosym` | sr_port/alias.h:157-169 | dropping the last reference kills the subtree and frees the slot; otherwise only the count changes |
| `LvGc.SymVal.KillSubtreeAndFree` | sr_port/alias.h:171-188 | a slot without references gives up its tree and its place, and the counts stay exact |
| `LvGc.SymVal.SweepUnmarked` | sr_port/alias_funcs.c:1134-1191 | from stamps that say what is reachable, the sweep yields the collected heap |
| `LvGc.SweptOrphans` | sr_port/alias_funcs.c:1175-1187 | after the sweep every orphan is gone, and all marked variables remain exactly if all were shielded: the source's debug check, with its condition |
| `LvGc.MarkedIsReach` | sr_port/alias_funcs.c:1028-1133 | stamped and followed means reachable: the marks are a closed set that contains the roots and nothing else |
| `LvGc.CountedRootsShield` | sr_port/alias_funcs.c:1055-1071 | if every root is counted outside the table, every reachable variable is shielded and so survives |
| `LvGc.UncountedRootNotShielded` | sr_port/alias_funcs.c:1055-1071 | a consistent table in which an uncounted parameter entry is marked and still not shielded, so that the sweep frees it |
| `LvGc.LoopConsistent` | sr_port/alias_funcs.c:1055-1071 | that table has exact counts and meets every demand of the collector |
| `LocalVars.RefsByPath` | sr_port/alias_funcs.c:784-810 | a tree refers to a variable exactly when some path of left, right and child turns leads to a container of it |
| `LocalVars.ReachStamp` | sr_port/alias_funcs.c:139-163 | stamps do not change what is reachable, so the marks of one collection cannot mislead the next |
| `LocalVars.IncrLvTaskCycle` | sr_port/lv_val.h:171-187 | when the counter wraps, the nested loops clear the slots of the current table only; the new stamp is unused exactly when the counter did not wrap or no slot of another table bears 1 |
| `XnewPop.XnewPopper.CheckXnewVarAliases` | sr_port/alias_funcs.c:386-590 | the pass from start to end, the step of the task cycle counter included, for any stamps: only what it sees from passed variables, staying references and return argument is copied, once each; all of that ends in surviving slots with value and redirected containers; a container into the popped table is left exactly if one was not seen or stood in a slot whose old stamp equals the new one. If no slot bears the new stamp, what it sees is all that is reachable. Every copy belongs to the current table, older slots keep their table, and each passed name ends in a slot of the current table if its variable was in the popped one, else in its own table |
| `XnewPop.WrapLeavesPointer` | sr_port/lv_val.h:171-187 | an older table's variable stamped 1 before the counter wrapped is passed over though it is a root: its container leads into the popped table before and after any pass |
| `XnewPop.FreshCarriesAll` | sr_port/alias_funcs.c:461-586 | with a stamp that no slot bears: everything reachable from the roots is carried over with its values and redirected containers, nothing else is copied, and no container into the popped table is left exactly when every surviving variable that had one was reachable |
| `XnewPop.NoPointerLeft` | sr_port/alias_funcs.c:461-586 | a container into the popped table is left exactly when the pass did not see it, or took its variable for visited |
| `XnewPop.PassDone` | sr_port/alias_funcs.c:461-586 | the invariant of the pass and its visited roots give all of that |
| `XnewPop.ForwardByPath` | sr_port/alias_funcs.c:638-695 | the redirected tree has at the end of every path what the old one has there, but a container leads where its target was copied to |
| `XnewPop.XnewPopper.ResolvTree` | sr_port/alias_funcs.c:202-218 | the containers of a surviving slot are redirected once, whatever cycles there are |
| `XnewPop.XnewPopper.PrcsTree` | sr_port/alias_funcs.c:638-695 | every container of a tree is replaced by what its target forwards to, subscript trees included |
| `XnewPop.XnewPopper.CloneLvval` | sr_port/alias_funcs.c:169-188 | a popped slot is copied once, into the current table, and keeps a forwarding pointer; nothing else in it or in other slots changes |
| `XnewPop.XnewPopper.ResolvCont` | sr_port/alias_funcs.c:638-695 | a container's target is used as it is, or through its forwarding pointer, or cloned, and then scanned |
| `XnewPop.XnewPopper.ReturnVars` | sr_port/alias_funcs.c:461-525 | step 4: every passed variable ends in a surviving slot of the current table, the three cases of the source included |
| `XnewPop.XnewPopper.ScanRefs` | sr_port/alias_funcs.c:526-549 | step 5: recorded references that stay are scanned |
| `XnewPop.PopIsomorphism` | sr_port/alias_funcs.c:461-586 | whatever the pass sees from the roots is, after redirection, in a surviving table with its value and, unless it was taken for visited, with its containers redirected one for one |
| `XnewPop.ForwardInjective` | sr_port/alias_funcs.c:169-188 | two references share a target afterwards exactly when they shared one before, and no popped variable is cloned twice |
| `XnewPop.VisitedDone` | sr_port/alias_funcs.c:638-695 | a visited slot holds its original's value and its redirected tree, all of it settled; one stamped before the pass its old tree |
| `XnewPop.XnewPopper.RetargStep` | sr_port/alias_funcs.c:550-586 | step 6: the return argument is redirected and what it leads to scanned |
| `BoolShort.LadderCorrect` | sr_port/bx_tail.c:21-120 | for every Boolean tree, sense and target, the short-circuit chain reaches the target exactly when the tree's value is the sense and otherwise falls off its end, having evaluated just the leaves short-circuit evaluation evaluates, in order |
| `BoolShort.RelCorrect` | sr_port/bx_relop.c:34-37 | a relation becomes a comparison and a jump with the right condition, negated forms included |
| `BoolCompile.Chain.BxTail` | sr_port/bx_tail.c:36-120 | the in-place compilation turns the parser's chain into that ladder, between unchanged neighbours, and takes one fresh number for each jump |
| `BoolCompile.Chain.BxBoolop` | sr_port/bx_boolop.c:84-100 | AND and OR: both operands compiled with their senses and targets, the operator left as a landing place |
| `BoolCompile.Chain.BxLeaf` | sr_port/bx_tail.c:57-71 | a leaf: coercion or truth test and its jump |
| `BoolFull.FullCorrect` | sr_port/bx_boolop.c:287-346 | full evaluation: every operand runs exactly once in source order, and the rebuilt ladder jumps to the target exactly when the truth over the kept values is the sense |
| `BoolFull.KeptCorrect` | sr_port/bx_boolop.c:174-236 | the rewritten chain runs every operand once, in order, and leaves each value where the new ladder looks for it |
| `BoolFull.FinalCorrect` | sr_port/bx_boolop.c:295-338 | the redirected ladder decides the tree by short circuit over kept values |
| `BoolFull.DirectRefs` | sr_port/bx_boolop.c:29-60 | the new ladder refers to an operand itself, and not to a triple that keeps it, exactly when it is no variable, no dynamic literal and, for a coercion, no integer |
| `BoolFull.CapturedExactly` | sr_port/bx_boolop.c:29-60 | the ladder tests the values the operands had before later ones ran, for all operations, effects and stores, exactly when no leaf that keeps an address (a subscripted node, or a plain variable under a unary operator) stands before an operand with side effects |
| `BoolFull.CarefulKept` | sr_port/bx_boolop.c:101-249 | in that case the new ladder also decides as the source tree does |
| `BoolFull.CarelessSeen` | sr_port/bx_boolop.c:180-192 | otherwise some operations and stores make the ladder test a later value |
| `BoolFull.ShortIsSource` | sr_port/bx_boolop.c:90-100 | without side effects the short-circuit value is the source value |
| `BoolCompile.Chain.BxBoolopOutermost` | sr_port/bx_boolop.c:101-356 | the in-place rewriting of an outermost operator leaves kept operands, redirected ladder and safe target, and an empty auxiliary chain |
| `BoolCompile.Chain.BxTailFull` | sr_port/bx_boolop.c:131-143 | an operand under full evaluation: its chain rewritten, its part of the new ladder appended, its landing places tracked |
| `BoolCompile.Chain.MoveLeaf` | sr_port/bx_boolop.c:144-248 | the compiled leaf is found among no-ops, its test and jump go to the new ladder, and what keeps its value takes their place |
| `BoolCompile.Chain.Fish` | sr_port/bx_boolop.c:144-150 | the walk back over no-ops ends at the last triple that is not one |
| `BoolCompile.Chain.FishBack` | sr_port/bx_boolop.c:144-170 | the whole search, with its step past a conditional jump and its second search forwards, finds the operand's test, or something inert if the operand has been moved; the forward search is not reached for chains that bx_tail leaves |
| `BoolCompile.Chain.PastJump` | sr_port/bx_boolop.c:151-170 | back past a conditional jump that tests no truth, and forwards from the operand over no-ops if one stands there |
| `BoolCompile.Chain.PassThru` | sr_port/bx_boolop.c:180-185 | leading unary operators become transparent, and the answer is what stands under them |
| `BoolCompile.Chain.RedirectLadder` | sr_port/bx_boolop.c:295-338 | every jump of the new ladder to a compiled-away operator goes to the triple after the one that operator ended with |
| `BoolCompile.RedirectWhole` | sr_port/bx_boolop.c:295-338 | redirecting the new ladder gives the ladder whose correctness is proved, its jumps off the end landing on the safe target |
| `BoolFold.FoldMeaning` | sr_port/bx_boollit.c:129-221 | folding keeps truth value and effects of every tree, negated operators and complemented literals included |
| `BoolFold.FoldOperandMeaning` | sr_port/bx_boollit.c:55-128 | the same for an operand: signs, coercions and complements over literals carried out |
| `BoolFold.FoldThenLadder` | sr_port/bx_boollit.c:138-221 | the ladder of the folded tree jumps as the original tree decides |
| `BoolFold.FoldLiteral` | sr_port/bx_boollit.c:205-221 | what an operator is folded to is the literal 1 if it is true and 0 if not |
| `BoolFold.ComplementLiteral` | sr_port/bx_boollit.c:72-82 | so does the complement of a literal |
| `BoolFold.MatchesLeft` | sr_port/bx_boollit.c:185-192 | while a literal XECUTE is parsed every pattern match stays in the tree, with its operands and its negation |
| `BoolFold.FoldReduced` | sr_port/bx_boollit.c:55-221 | nothing that could be folded is left |
| `ObjLink.WriteThenLink` | sr_i386/incr_link.c:172-391 | a finished object always links, and every external reference recorded at an address of its own has the outcome of its recorded name: without a dot, the word is patched with the address of the routine of that name; with one, with that of the first label of the name after the dot in the routine before it; it is left and queued once, under that name, exactly when routine or label is missing. A leading underscore of either part stands for a percent sign. An internal reference at an address of its own has its word moved by the base once, in 32 bits |
| `ObjLink.EntryFate` | sr_i386/incr_link.c:342-391 | an external entry has exactly one effect: one patch, or one place on one queue |
| `ObjLink.ReferenceFate` | sr_i386/incr_link.c:172-391 | the same through numbering, output and reading, stated by the recorded name |
| `ObjLink.SectionsLink` | sr_i386/obj_file.c:313-381 | what the writer puts out is accepted by the linker |
| `ObjFile.ObjWriter.DefineSymbol` | sr_i386/obj_file.c:271-311 | the symbol list stays sorted without repetition; a new symbol takes its place and answers null, a known one is found; relocations are counted for symbols of other modules |
| `ObjFile.ObjWriter.EmitReference` | sr_i386/obj_file.c:179-210 | a name of this module gives its value, any other one an entry on the chain of its symbol |
| `ObjFile.ObjWriter.ResolveSym` | sr_i386/obj_file.c:313-332 | every external entry, and no other, gets the number of the symbol it was recorded under, modulo 24 bits |
| `ObjFile.ObjWriter.EmitImmed` | sr_i386/obj_file.c:217-240 | bytes come out in order through the fixed buffer, whatever the sizes |
| `ObjFile.ObjWriter.OutputSymbol` | sr_i386/obj_file.c:360-381 | symbol entries, each with the offset its name really has, then the length of the table and the names |
| `ObjFile.SymbolRead` | sr_i386/masscomp.h:46-52 | the entry of a symbol reads back: its string offset, its external and text bits and its value stand where the layout has them |
| `ObjFile.SymbolNamed` | sr_i386/obj_file.c:360-381 | and the string offset leads to the symbol's own zero-ended name in the string table |
| `ObjFile.ObjWriter.FinishObjectFile` | sr_i386/obj_file.c:99-109 | all sections in the file, entries numbered by name |
| `ObjFile.ObjWriter.EmitAddr` | sr_i386/obj_file.c:125-151 | an address in the module: its offset behind the code, and an internal entry |
| `ObjFile.ObjWriter.EmitPidr` | sr_i386/obj_file.c:153-177 | the same for a reference in the literals, in their own list |
| `ObjFile.LessByByte` | sr_i386/obj_file.c:276-283 | names are in the order of their first different byte, a name before those it begins |
| `ObjFile.LessTransitive` | sr_i386/obj_file.c:276-283 | the name order is transitive, which the ordered search relies on |
| `ObjFormat.RelRoundTrip` | sr_i386/masscomp.h:27-34 | a relocation entry survives its eight bytes, its symbol number modulo 24 bits, and its constant fields are those of a word that is not relative |
| `ObjFormat.RelsRoundTrip` | sr_i386/obj_file.c:334-358 | a list of entries survives being written and read |
| `ObjFormat.NamesRoundTrip` | sr_i386/obj_file.c:375-381 | the walk over zero-ended names finds every name, in order |
| `IncrLink.Linker.AddrFix` | sr_i386/incr_link.c:172-391 | for any bytes: succeeds exactly on whole entries with a string table that has all the names needed; then internal words have moved once per entry and each external entry is handled once under its number |
| `IncrLink.LabelName` | sr_i386/incr_link.c:296-341 | a recorded name with a dot is a label of the routine before the first dot, underscores read as percent signs |
| `IncrLink.LabelBound` | sr_i386/incr_link.c:342-371 | a label reference is bound to the first label of that name in a known routine, and unbound exactly when there is none |
| `IncrLink.Linker.ReadRelocs` | sr_i386/incr_link.c:188-246 | entries are read in chunks; each internal one moves its word by the base, each external one joins the group of its number |
| `IncrLink.Gather` | sr_i386/incr_link.c:202-241 | insertion keeps the list in symbol number order and counts every address as often as it occurs |
| `IncrLink.Linker.WalkSymbols` | sr_i386/incr_link.c:272-391 | string table and groups advance together; fails exactly when a name is missing |
| `IncrLink.Linker.ReadTarget` | sr_i386/incr_link.c:296-341 | the two-part scan of a name yields routine and label, a leading underscore standing for a percent sign |
| `IncrLink.LogOfGathered` | sr_i386/incr_link.c:272-391 | every external entry is handled as often as it occurs, under its own number |
| `LabelMerge.MergeLabels` | sr_i386/incr_link.c:137-167 | every old label takes the line of the new label of its name, or none if there is none; one pass over sorted tables suffices |
| `TempAlloc.Allocator.AllocReg` | sr_port/alloc_reg.c:53-224 | after the pass no two values that are both still needed share a slot of a class, every used value has a slot of its class, and every slot is within the frame; a slot is given out only where all lower ones of its class were given out before, TVAL ones since the last line start cleared them; the frame has a TVAR place for each variable. Where back pointers are just the uses, no assignment with these properties takes fewer slots of any class, and the pass fails only if none does with the 1024 there are; in any case it fails only where values with back pointers left, TVAL ones since the last line start, hold all slots of the class |
| `TempAlloc.CrowdedAtLeast` | sr_port/alloc_reg.c:181-194 | values needed at one triple need as many slots in every right assignment, so that taking the lowest free slot is optimal |
| `TempAlloc.Allocator.FindFree` | sr_port/alloc_reg.c:182-185 | the lowest free slot of a class, or that all are taken |
| `TempAlloc.OperandsFetched` | sr_port/alloc_reg.c:163-221 | running the code through the slots gives every operand the value its defining triple made |
| `TempAlloc.SlotHolds` | sr_port/alloc_reg.c:163-221 | a value still needed is still in its slot |
| `TempAlloc.Allocator.RemoveBackptr` | sr_port/alloc_reg.c:236-259 | the first back pointer to the user goes; with the last one, and only then, the slot becomes free, and nobody else still needs it |
| `TempAlloc.Allocator.ClearTval` | sr_port/alloc_reg.c:103-112 | the TVAL slots up to the highest one used become free, no other changes, and the invariant is kept if no TVAL value is needed across it |
| `TempAlloc.Allocator.Assign` | sr_port/alloc_reg.c:163-194 | a value that has back pointers takes the lowest free slot of its class, and there is an error exactly if there is none; whoever had the slot before is not needed any more |
| `FrameLayout.FrameApart` | sr_i386/emit_code.c:834-836 | distinct temporaries on one base register do not overlap and lie within the frame |
| `FrameLayout.Aligned` | sr_port/alloc_reg.c:224-233 | everything but the ints begins at a multiple of the pointer size, whatever the number of ints |
| `FrameLayout.LayOut` | sr_port/alloc_reg.c:222-233 | the ends of the class regions |
| `I386Code.DecodesBack` | sr_i386/emit_code.c:1208-1244 | an addressing form decodes to its register field, base and offset exactly when it is not EBP with offset zero; that one reads as an address without base |
| `I386Code.FormSize` | sr_i386/emit_code.c:1208-1244 | the displacement takes no byte if it is zero, one if it fits one and four are not forced, else four |
| `I386Code.JumpSize` | sr_i386/emit_code.c:636-717 | the short form is taken exactly where the distance fits a byte and the long one has not been predicted |
| `I386Code.CallsThrough` | sr_i386/emit_code.c:1146-1151 | the emitted call reads as an indirect call through the transfer table at EBX plus the given offset |
| `I386Code.JumpsNowhere` | sr_i386/emit_code.c:636-640 | at distance zero one byte does nothing |
| `I386Code.Emitter.EmitBaseOffset` | sr_i386/emit_code.c:1208-1244 | the emitted bytes are that encoding |
| `I386Code.JumpsToTarget` | sr_i386/emit_code.c:627-717 | the bytes of a jump are taken on the right condition and lead exactly to the target, in every form |
| `I386Code.Emitter.EmitJmp` | sr_i386/emit_code.c:627-717 | the emitted bytes are that encoding, the remaining distance is kept, and whether the two assertions about the predicted form hold |
| `I386Code.Emitter.EmitCallTriple` | sr_i386/emit_code.c:138-179 | the predicted form of the jump behind a call is contradicted exactly when the table offset is zero and the distance 132 |
| `Lru.RunHoldsRecent` | sr_port/bt_put.c:58-127 | the queue holds exactly the n most recently put distinct blocks |
| `Lru.RunDescribes` | sr_port/bt_put.c:58-127 | behind a block stand exactly the blocks put since, and a block that is gone has n others since |
| `BlockTable.BtTable.BtPut` | sr_port/bt_put.c:58-127 | a put refines the least-recently-used queue: it fails only when the cache cannot free the oldest record, changing nothing, never reports a broken chain, and otherwise updates exactly one record |
| `BlockTable.BtTable.BtGet` | sr_port/bt_get.c:34-46 | the bounded walk answers a record of the block exactly when the block is among the n most recently put |
| `BlockTable.BtTable.BtRefresh` | sr_port/bt_refresh.c:32-48 | all records unused; with initialisation one record per chain and all in order on the queue |
| `BlockTable.PutBlocks` | sr_port/bt_put.c:83-125 | moving a record to the back, or giving the oldest to a new block, is a put on the abstract queue |
| `BlockTable.RelinkHashed` | sr_port/bt_put.c:88-94 | every valid record stays on the chain of its block modulo the buckets |
| `BlockTable.Requeued` | sr_port/bt_put.c:115-126 | the recency queue keeps all records, in non-decreasing transaction order |
| `CertBlk.CertBlk` | sr_port/cert_blk.c:246-554 | a block is accepted exactly when its header fits its place, whole records tile it, its star record is one, its keys are certified as a whole, and the child block numbers, in a data block those from where it shows to be of a directory, are within the database, none that of a bitmap and no two running the same |
| `BlockWrite.WrittenAccepted` | sr_port/cert_blk.c:246-554 | a block written from keys, values and children, compressed and with record headers as the layout has them, is accepted exactly when its header fits its place, its keys strictly increase with few enough subscripts, they are of the kind the place and the root swap state demand, and its children are good |
| `BlockWrite.RecordsRead` | sr_port/cert_blk.c:302-345 | the records read from a written block are those written, with the sizes and counts they had, and they tile it, the star record included |
| `BlockWrite.HeaderReads` | sr_port/gdsblk.h:60-80 | size, low byte first, and compression count, in one byte below 253 and else in two, are read as SET_CMPC and the layout write them |
| `BlockWrite.IdReads` | sr_port/gdsroot.h:95-109 | a block number of four or eight bytes, low byte first and signed, reads as written |
| `BlockWrite.KeyRead` | sr_port/cert_blk.c:346-452 | a key compressed against the one before is expanded to itself |
| `BlockWrite.KidsRead` | sr_port/cert_blk.c:507-540 | the children the certifier looks at are those written: in an index block all and the star record's, in a data block those from where it shows to be of the directory |
| `CertBlk.CertChild` | sr_port/cert_blk.c:507-540 | the child block number of one record, read after the star record's header or after the key |
| `KeyBlock.CheckedIsCertified` | sr_port/cert_blk.c:300-451 | the checks record by record, which look at the prior key only, succeed exactly when all keys strictly increase bytewise, all compression counts are the exact common prefixes, every key is terminated within its record, and the block is of one kind |
| `KeyBlock.LessByByte` | sr_port/cert_blk.c:437-450 | keys are in the order of their first different byte, a key before those it begins |
| `KeyBlock.CertifiedTerminated` | sr_port/cert_blk.c:366-404 | every key has its double terminator at its end and nowhere else |
| `KeyBlock.AcceptedOneName` | sr_port/cert_blk.c:406-425 | in a block that the checks accept for a global variable tree, or with a subscripted key, all keys have one name |
| `KeyBlock.SameName` | sr_port/cert_blk.c:406-415 | a count shorter than the first name and its delimiter is exactly a change of name |
| `CertBlk.CheckRecord` | sr_port/cert_blk.c:321-452 | the checks on one record, from its bytes |
| `CertBlk.ScanKey` | sr_port/cert_blk.c:366-404 | the scan for the key's end, begun at the last shared byte, finds the end of the whole key, its delimiters and the first name's length |
| `CertBitmap.CertBitmap` | sr_port/cert_blk.c:188-245 | a bitmap is accepted exactly when its own block is not available, no block in the words looked at has the invalid pattern, and the master bit says whether some block in range is free or recycled |
| `CertBitmap.WordStatuses` | sr_port/cert_blk.c:212-235 | the mask-and-shift tests on a word agree with its sixteen blocks |
| `CertBitmap.BmlFindFree` | sr_port/bml_find_free.c:43-87 | the wrapping byte search finds a block that is not busy if and only if there is one in range; for a hint in the byte just past the map the range is four blocks longer than the map |
| `Bitmap.StatusNumber` | sr_port/gdsbml.h:17-20 | two bits a block, from the low end of each byte: 0 busy, 1 free, 2 never made, 3 recycled |
| `Bitmap.MapBitAt` | sr_port/gtm_ffs.c:19-54 | bit i of a map is bit i modulo 8 of byte i divided by 8, from the low end |
| `Bitmap.BmlBusy` | sr_port/bml_busy.c:28-45 | the addressed block becomes busy and no other changes; the answer is whether it was available |
| `Bitmap.BmlFree` | sr_port/bml_free.c:28-42 | the same for free |
| `Bitmap.BmlRecycled` | sr_port/bml_recycled.c:27-40 | the same for recycled |
| `Bitmap.BmlNewmap` | sr_port/bml_newmap.c:25-37 | the map's own block is busy, all others are free |
| `Bitmap.RunTransitions` | sr_port/bml_newmap.c:25-37 | after any run of transitions from a new map every block has the state of the last transition on it |
| `Bitmap.AfterValid` | sr_port/gdsbml.h:17-20 | no run makes the invalid pattern |
| `BitmapSearch.BmFindBlk` | sr_port/bm_find_blk.c:23-187 | on any map the first byte with anything in range decides: the least available block and whether it is recycled, none, or, on an invalid pattern, block 3 of the byte |
| `BitmapSearch.AnswerRight` | sr_port/bm_find_blk.c:88-94 | the answer is the least available block in range exactly when the first byte with anything in it has an available block |
| `BitmapSearch.ValidRight` | sr_port/bm_find_blk.c:23-187 | without invalid patterns in range the search is right, partial last bytes included |
| `BitmapSearch.InvalidAnswered` | sr_port/bm_find_blk.c:88-94 | a map of four blocks, the first invalid and the others busy: the answer is block 3, which is busy |
| `MasterMap.GtmFfs` | sr_port/gtm_ffs.c:19-54 | the least set bit of a range, or none |
| `MasterMap.BmmFindFree` | sr_port/bmm_find_free.c:25-43 | the least set bit from the hint on, else the least before it, else none |
| `MasterMap.Recount` | sr_port/bm_getfree.c:264-293 | the nested loops end, and answer the number of block numbers below the total that are free or recycled in a readable map that the master map marks |
| `MasterMap.MapSizes` | sr_port/bm_getfree.c:130-135 | the places in the local maps are exactly the block numbers below the total |
| `MasterMap.FormedByBlock` | sr_port/bm_getfree.c:264-293 | what is demanded of the maps is a demand on every block number below the total |
| `MasterMap.FreeCounter.IsFreeBlksCtrOk` | sr_port/bm_getfree.c:294-303 | says whether the counter was right, and corrects it |
| `GetFree.Transaction.GetFree` | sr_port/bm_getfree.c:73-245 | a search gives out a block available in a marked map and records it and no other; the block is below the total; it asks to extend only when every block number below the total in a marked map that is available is recorded where the search finds it, and fails to read only where a marked map cannot be read; the rounds never run out. In a state that exposes no map the block is new to the whole write set and the state stays so |
| `GetFree.Transaction.GetMany` | sr_port/bm_getfree.c:73-245 | any run of searches from such a state: blocks new to the write set and pairwise distinct, all of them and nothing else newly recorded, and none after a search has asked to extend, because then no marked map has one left; a failure to read comes only where a marked map cannot be read |
| `GetFree.Transaction.GoesWrong` | sr_port/bm_getfree.c:136-170 | in every other state some search reads in front of the write set or gives out a recorded block: an element below the start of the search, or at index 0, which doubles as not found, is lost |
| `GetFree.CallersSafe` | sr_port/t_end.c:511 | with at least one element, none of them with bits of a map, ahead of those of maps, as both callers have it, no map is exposed |
| `GetFree.Transaction.FindDepth` | sr_port/bm_getfree.c:136-170 | the search of the write set, front to back or back to front, with an unsigned comparison that a bound of 0 does not stop |
| `GetFree.NextHint` | sr_port/bm_getfree.c:202-207 | past a full map the hint advances or wraps, and the rounds still needed go down |
| `GetFree.PassedAll` | sr_port/bm_getfree.c:95-103 | when the search ends without a block it has been at every marked map |
| `GetFree.TookMore` | sr_port/bm_getfree.c:224-228 | taking the next available bit after the last one taken from a map keeps its element complete up to there |
| `GetFree.TookFirst` | sr_port/bm_getfree.c:229-243 | so does taking the first bit of a map without an element |
| `GetFree.RecordedTakes` | sr_port/bm_getfree.c:224-243 | recording a bit records that block and no other |
| `BuddyList.Buddy.ReinitializeList` | sr_port/buddy_list.c:65-76 | empty again, no element in use, and the rows kept |
| `BuddyList.Buddy.GetNewElements` | sr_port/buddy_list.c:113-149 | the region handed out is contiguous in one row, at the next place of the flat sequence if there is room in the row, else at the start of the first later row that has room; existing rows stay |
| `BuddyList.Buddy.FindElement` | sr_port/buddy_list.c:184-196 | the place of the k-th element, or nothing past the end |
| `BuddyList.Buddy.FreeLastNElements` | sr_port/buddy_list.c:78-111 | back to the state for that many fewer elements, across any number of rows, or refused with nothing changed |
| `BuddyList.Buddy.AllocateThenFree` | sr_port/buddy_list.c:78-149 | n allocations and freeing n elements restore the allocation state |
| `BuddyList.Buddy.CopyListToBuf` | sr_port/buddy_list.c:217-254 | the first elements, in order, across rows |
| `BuddyList.Buddy.StateOnce` | sr_port/buddy_list.c:78-111 | the allocation state is a function of the number of elements |
| `BuddyList.AtOnce` | sr_port/buddy_list.c:184-196 | places and numbers correspond one to one |
| `BuddyList.Buddy.GetNewFreeElement` | sr_port/buddy_list.c:151-170 | an element that nobody is using, the one given back last if there is one |
| `BuddyList.Buddy.FreeElement` | sr_port/buddy_list.c:172-182 | the element is not in use any more and the others are as before |

## Left out

- LvGc.SymVal.ListSlots: the stack array that the list lives in, and its growth, are not modelled.
- LvGc.SymVal.LvvalGc: one symbol table whose containers all stay inside it; transaction clones made while killing (`dotpsave`) are not modelled. When the counter wraps, all its slots are cleared; other tables are in XnewPop.
- XnewPop.XnewPopper.CheckXnewVarAliases: the count release of step 3 and of the previous variables is not modelled, because popped storage is released wholesale by code outside these files; whether a count makes a variable stay is an input.
- XnewPop.XnewPopper.CloneLvval: a clone takes a fresh slot; reuse of free slots by lv_getslot is not modelled.
- als_lsymtab_repair, als_prcs_tpsav_cntnr, als_prcs_kill_cntnr and als_prcs_xnewref_cntnr: hash table repair and transaction bookkeeping.
- BoolCompile.Chain.BxBoolopOutermost: BOOLINIT, BOOLFINI and COMVAL around expressions that produce a value, and the relocation of such a sequence by bx_relop, are not modelled.
- BoolCompile.Chain.BxLeaf: folding of chained arithmetic by ex_tail is not modelled; operands are values, variables, subscripted nodes, literals and unary operators.
- BoolCompile.Chain.RedirectLadder: TNXT targets arise only with BOOLFINI and are not modelled; the tracked landing places are a map from triple to triple.
- BoolFold.FoldMeaning: the queue housekeeping of bx_boollit (deleted triples, literal use counts) and the numeric overflow error are not modelled; literals are integers.
- IncrLink.Linker.AddrFix: unresolved references are queued by target; the order of the lists kept by urx_putrtn and urx_putlab is not modelled. A string table of less than four bytes, or whose last name has no end, fails here; the source looks one byte further. Identifier length limits and memory release are not modelled.
- ObjLink.WriteThenLink: the section sizes in the file header are the real ones; the source computes them before the sections are written and asserts that they agree. Two references at one address are outside the claim, since the later patch overwrites the earlier.
- ObjFile.ObjWriter.EmitReference: the symbol has to be defined before, as the source asserts.
- TempAlloc.Allocator.AllocReg: destinations shared with another triple and the elision of OC_STO are not modelled; the operands behind parameter triples are one list; the rewriting of opcodes other than to no-ops is left out. The comparison with other assignments needs back pointers that are just the uses.
- FrameLayout.FrameApart: TVAR slots are numbered by variable and not assigned here.
- BlockTable.BtTable.BtPut: the cache record's back index, tracing and the oldest transaction number are not modelled; whether the oldest cache record is dirty and can be flushed are inputs. A zero link cannot occur, since links are implicit.
- CertBlk.CertBlk: chained child block numbers within a transaction, null subscripts, collation and message text are not modelled. A record header that does not fit the block fails as too long. Key length limits are not modelled.
- GetFree.Transaction.GetFree: file extension ends the search with an outcome of its own; local maps do not change during the transaction, and well formed ones have no invalid pattern, which certification ensures. Reading in front of the write set is an outcome too.
- BuddyList.Buddy.FindElement: `initialize_list` is given the exponent of the first row; its rounding up by bit operations is not modelled, nor is the limit of 65 rows.
- BuddyList.Buddy.FreeElement: the free queue is a list of places; that the source keeps its links inside the freed elements is not modelled.
- Error-message tables, the template table, GT.CX and GT.CM headers, file and shared-memory work, the lexer and command parsing: data, foreign calls or easy members.
