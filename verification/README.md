# MSP430 register-lifetime scanners, modelled in Dafny

This is a model of the analysis core of two IDAPython scripts for MSP430 firmware.

- **Unset-register scanner** (`idapython/unset_scanner.py`). This is a backward walk. A candidate instruction uses a register whose name begins with "R". The walk looks for an instruction that defines that register. It goes over previous heads and fans out over incoming jump and call references, within a budget of instructions. `search` reports and counts every candidate with no definition in reach.
- **Reentrant-interrupt scanner** (`idapython/reentrant_int_scanner.py`). This is a forward walk from an interrupt handler, up to a maximum depth. It lists every instruction that may re-enable interrupts: one that names the peripheral interrupt-enable register as a memory operand, or `SR` as a register operand. The script is meant to end a path at non-code and at `reti`. As written, it ends a path only when the head it examines is one of these, and that head is always the one after the address it was called with (see Findings).

## How the model is built

The IDA database is an immutable value, `Ida.Database`. It has:

- a map from address to instruction (mnemonic, operands as type/value/text, and the flags `isCode`, `isRef`, `isFlow`);
- `PrevHead` and `NextHead` as functions returning `Option<Addr>`, with `None` for BADADDR;
- `CodeRefsTo` without fall-through and `CodeRefsFrom` with fall-through.

An address with no head reads as unexplored: no flags and an empty mnemonic. An operand slot the instruction does not use reads as IDA's `o_void`: type 0, value -1, empty text.

The classifiers are pure predicates over one instruction (`Classify`).

The two walkers are mutually recursive total functions. Their budget is the termination measure: each linear step and each recursive call lowers it by one.

- `UnsetScanner.FindSetInstr` returns the `(found, address)` pair.
- `ReentrantScanner.FindIeInstr` returns the sequence of addresses the script would print.
- `UnsetSearch.Search` is the loop of `search` over a given list of segments and their heads.

Each walker has an independent reference definition to check it against:

- **Backward walk.** `BackVisits` is the exhaustive order in which the walk examines instructions. That order does not depend on the target. `FirstSet` picks the first defining instruction in it.
- **Forward walk.** `Reaches` is the relation "this address is examined by the call tree of depth d".

The walkers follow the script, quirks included:

- Unknown mnemonics count as writes.
- `clr` is a definition but not a write.
- An `and` with operand-0 value 0 defines every target.
- Neither walker starts at the address it is called with: the backward walk starts at the previous head and the forward walk at the next one. On a loop a later step can reach that address again (`Scenarios.BackwardLoopReachesStartHead`, `Scenarios.ForwardLoopReachesStartHead`).
- Nothing is memoised. In the forward walk, a match reached from two successors is reported at least twice (`ReentrantScanner.ReachedTwiceIsPrintedTwice`).

## Model

| member | source | states |
|---|---|---|
| Classify.IsJumpInstr | idapython/unset_scanner.py:53-70 | a jump or call mnemonic is always on the write exclusion list and is never one of the mnemonics that can define a target |
| Classify.IsWriteInstr | idapython/unset_scanner.py:74-126 | no jump is a write; push/pop, clears, compares, bit tests, returns and br/bra are never writes; an instruction without a mnemonic (an unexplored address) counts as a write |
| Classify.RegIsUsed | idapython/unset_scanner.py:146-147 | a register counts as used exactly when the mnemonic is off the exclusion list or is one of the jumps on it |
| Classify.IsSetInstr | idapython/unset_scanner.py:130-144 | a definition is always a mov/movx, clr/clrx, and/andx or pop/popx; a mov/movx defines the target iff its operand-1 text is the target, a clr/clrx/pop/popx iff its operand-0 text is, and an and/andx iff its operand-0 value is 0 |
| Classify.JumpMnemonicsCount | idapython/unset_scanner.py:53-70 | the jump/call table has exactly 14 distinct mnemonics |
| Classify.JumpIsNotWrite | idapython/unset_scanner.py:74-126 | every jump or call mnemonic is on the write exclusion list, so no jump counts as a write |
| Classify.PolicyNonWrites | idapython/unset_scanner.py:74-126 | push/pushx/pushm/pop/popx, clr/clrx/clra, cmp, eint/dint, nop and ret/reti/reta are neither writes nor jumps |
| Classify.ClrSetsButDoesNotWrite | idapython/unset_scanner.py:135-137 | `clr` defines its operand yet is not a write, so a `clr` head is never a candidate |
| Classify.TwoTargetsMeansAndZero | idapython/unset_scanner.py:138-140 | an instruction that defines two different targets must be an and/andx whose operand-0 value is 0 |
| Classify.AndZeroSetsEveryTarget | idapython/unset_scanner.py:138-140 | an and/andx whose operand-0 value is 0 defines every target |
| Classify.JumpIsNeverSet | idapython/unset_scanner.py:130-144 | no jump, call or `br`/`bra` branch is a definition, so the jump, call or branch a backward fan-out starts from could never have been one |
| UnsetScanner.FindSetInstr | idapython/unset_scanner.py:152-177 | a hit names a code head that defines the target; a miss always carries BADADDR; a budget of 0 or less always misses |
| UnsetScanner.ScanBack | idapython/unset_scanner.py:155-175 | the linear walk's result is well formed: found implies a defining code head, not found implies BADADDR |
| UnsetScanner.ScanRefs | idapython/unset_scanner.py:165-170 | the fan-out over incoming references returns a well-formed result: found implies a defining code head, not found implies BADADDR |
| UnsetScanner.ScanRefsIsFirstVisitedSet | idapython/unset_scanner.py:165-170 | the fan-out returns the first defining instruction in the examination order of its references, taken one after another, so the first reference with a hit wins |
| UnsetScanner.BackVisits | idapython/unset_scanner.py:153-175 | every instruction the backward walk examines is code |
| UnsetScanner.FirstSet | idapython/unset_scanner.py:159-162 | the first defining element of a trace: found iff some element defines the target, and then it is an element of the trace |
| UnsetScanner.FindSetIsFirstVisitedSet | idapython/unset_scanner.py:152-177 | find_set_instr equals the first defining instruction in the exhaustive examination order: the first success on any explored path is returned at once |
| UnsetScanner.FindSetHitIsEarliest | idapython/unset_scanner.py:159-170 | a miss means no examined instruction defines the target; a hit is an examined instruction with no defining one examined before it |
| UnsetScanner.BlockHeadEndsLinearWalk | idapython/unset_scanner.py:165-172 | at a referenced code head not reached by flow, the walk examines it and its incoming references and nothing further back |
| UnsetScanner.BackVisitsMonotone | idapython/unset_scanner.py:155-175 | every instruction examined with some budget is also examined with any larger budget |
| UnsetScanner.MoreBudgetKeepsDefinition | idapython/unset_scanner.py:155-175 | a definition found with budget b is still found with any budget b' >= b |
| UnsetScanner.BackVisitsBounded | idapython/unset_scanner.py:153-175 | with at most k incoming references per head, the walk examines at most BackBound(k, budget) instructions, whatever cycles the graph has |
| UnsetSearch.FirstChar | idapython/unset_scanner.py:214 | Python's `[:1]` equals "R" exactly when the text is non-empty and starts with 'R' |
| UnsetSearch.IsCandidate | idapython/unset_scanner.py:210-214 | an address is checked exactly when it is a code head, its mnemonic is a write or a jump, and its operand-0 text starts with 'R'; an address that is not a head never is |
| UnsetSearch.UnsetHeads | idapython/unset_scanner.py:208-219 | a segment never produces more reports than it has heads |
| UnsetSearch.UnsetHeadsMembership | idapython/unset_scanner.py:208-219 | a head is reported iff it is in the segment, is a code candidate, and its backward search for operand 0 fails |
| UnsetSearch.ReportedMembership | idapython/unset_scanner.py:205-219 | an address is reported iff some segment lists it as a head where it is an unset candidate |
| UnsetSearch.Search | idapython/unset_scanner.py:202-219 | the loops print exactly the unset candidates in segment and head order, and num_found equals their number |
| UnsetSearch.NoBudgetReportsEveryCandidate | idapython/unset_scanner.py:210-219 | with a search distance of 0 or less, every candidate is reported |
| UnsetSearch.MoreDistanceReportsLess | idapython/unset_scanner.py:199-219 | a larger search distance reports a subset of the candidates and never a larger count |
| ReentrantScanner.PotentialIeSetInstr | idapython/reentrant_int_scanner.py:51-68 | the four ordered checks hold exactly when operand 0 or operand 1 is a memory operand whose value is ie_reg_addr or a register operand whose text is exactly "SR" |
| ReentrantScanner.PotentialIsSymmetric | idapython/reentrant_int_scanner.py:59-67 | two instructions whose operands 0 and 1 are exchanged get the same potential_ie_set_instr answer, whatever their other operands |
| ReentrantScanner.PotentialIgnoresLaterOperands | idapython/reentrant_int_scanner.py:52-57 | operands past index 1 never affect potential_ie_set_instr |
| ReentrantScanner.FindIeInstr | idapython/reentrant_int_scanner.py:75-94 | every printed address is code, is not reti and satisfies potential_ie_set_instr; depth 0 prints nothing |
| ReentrantScanner.FindIeRefs | idapython/reentrant_int_scanner.py:93-94 | the successor loop prints only code, non-reti addresses that satisfy potential_ie_set_instr |
| ReentrantScanner.FindIeEmitsReachedMatches | idapython/reentrant_int_scanner.py:75-94 | an address is printed iff it satisfies potential_ie_set_instr and the walk of depth max_depth reaches it through live heads, so the call tree is at most max_depth high |
| ReentrantScanner.StopsAtRetiOrData | idapython/reentrant_int_scanner.py:80-87 | when the examined head, the one after the call's argument, is non-code or reti, the call prints nothing and reaches nothing |
| ReentrantScanner.MatchAtHeadComesFirst | idapython/reentrant_int_scanner.py:89-94 | preorder: a match at the examined head is printed before anything its successors find |
| ReentrantScanner.FindIeRefsConcat | idapython/reentrant_int_scanner.py:93-94 | successors are walked in CodeRefsFrom order: the output for a + b is the output for a followed by that for b |
| ReentrantScanner.ReachedTwiceIsPrintedTwice | idapython/reentrant_int_scanner.py:75-94 | a match reached from two successors, along two paths, occurs at least twice in the output |
| ReentrantScanner.FindIeBounded | idapython/reentrant_int_scanner.py:77-94 | with at most k successors per head, at most ForwardBound(k, max_depth) addresses are printed |
| ReentrantScannerFixed.FindIeFixed | idapython/reentrant_int_scanner.py:70-94 | corrected walker: prints only live matching addresses, and nothing at depth 0 or from a non-code/reti entry |
| ReentrantScannerFixed.FixedEmitsLivePathMatches | idapython/reentrant_int_scanner.py:70-94 | corrected walker: an address is printed iff it satisfies potential_ie_set_instr and a live CodeRefsFrom path of at most max_depth heads leads to it from the entry |
| ReentrantScannerFixed.FixedNeverCrossesReti | idapython/reentrant_int_scanner.py:82-87 | corrected walker: if every live successor of every live address in a set stays in the set, so that leaving it requires passing a reti or non-code, every printed address is in the set |
| ReentrantScannerFixed.FixedReportsMatchingSuccessor | idapython/reentrant_int_scanner.py:93-94 | corrected walker: a matching live successor of a live entry is always reported when depth >= 2 |
| Scenarios.DefinitionFoundWithinBudget | idapython/unset_scanner.py:152-177 | `clr R5` four heads back from `mov R5, &0x200` is found with budget 10 |
| Scenarios.DefinitionMissedOutsideBudget | idapython/unset_scanner.py:155-157 | with budget 3 the same search fails with BADADDR |
| Scenarios.StartHeadIsNotExamined | idapython/unset_scanner.py:153 | on a straight-line database, a search started at a `clr R5` head does not see that head and fails |
| Scenarios.JoinFindsDefinitionOnOnePath | idapython/unset_scanner.py:165-170 | at a block head entered from two jumps, a definition on the second path only is still found |
| Scenarios.BackwardLoopReachesStartHead | idapython/unset_scanner.py:153-170 | on a loop whose block head is entered from a jump after the candidate, the search from `mov R5, R5` fans out through the jump and finds that same `mov` |
| Scenarios.ForwardLoopReachesStartHead | idapython/reentrant_int_scanner.py:80-94 | on a spin loop, the forward walk called with the `bis #8, SR` address comes back around and prints that address |
| Scenarios.AsWrittenSkipsSuccessor | idapython/reentrant_int_scanner.py:80-94 | on a five-head handler whose third head enables the interrupt, the script's walker prints nothing |
| Scenarios.AsWrittenCrossesReti | idapython/reentrant_int_scanner.py:80-94 | on `nop`, `nop`, `reti`, `bis #8, SR` the script's walker prints the `bis` behind the reti, and the corrected walker prints nothing |
| Scenarios.FixedFindsEnable | idapython/reentrant_int_scanner.py:89-94 | the corrected walker prints exactly the enabling head on that handler |
| Scenarios.QuietHandlerReportsNothing | idapython/reentrant_int_scanner.py:75-94 | on a handler that never touches the register, the script's walker prints nothing |
| Scenarios.QuietHandlerFixedReportsNothing | idapython/reentrant_int_scanner.py:75-94 | on that handler the corrected walker prints nothing either |

## Left out

- Printing, `GetDisasm` text, user prompts (`AskAddr`, `AskLong`, `ScreenEA`), `search_instr_at_addr`, `find_all_ie_instr` and the module-level calls are left out. They are input and output only; the printed lines are modelled as the returned address sequences.
- The `DEBUG` switch and the reti debug message are left out. They are logging only.
- The behaviour of IDA's `PrevHead`, `NextHead`, `CodeRefsTo`, `CodeRefsFrom`, `GetFlags`, `Segments`, `Heads` and `SegStart`/`SegEnd` is not modelled. They are calls into IDA: the database value carries the first four as functions, the flags in its instruction map, and `search` takes the segments and their heads as a given list.
- MSP430 instruction semantics beyond mnemonic and operand type, value and text are left out. The scripts never interpret them.
- FindIeInstr: takes `max_depth` as a natural number. With a negative depth the script never reaches its `max_depth == 0` base case, so only BADADDR, non-code or an examined `reti` ends a path. On acyclic code it then finishes with an unbounded walk; on a cycle it recurses until Python's recursion limit. Both cases are not modelled.
- FindIeInstr and FindSetInstr: do not model Python's recursion limit (about 1000 frames). A `max_depth` or search distance near or above it can raise RuntimeError on a deep enough path (reentrant_int_scanner.py:94, unset_scanner.py:167). The model instead returns the result an unlimited stack would give.
- Running a scanner twice on the same database gives the same result. This holds trivially because every member is a pure function, so no lemma states it.

Two behaviours of the code are kept although they are easy to misread:

- An unrecognised mnemonic counts as a write: `is_write_instr` returns true for anything off its exclusion list. It is not treated as "no class".
- A five-instruction handler whose third instruction enables the interrupt reports nothing. The code is meant to report that instruction; see Findings.

## Findings

| source | as written | input that shows it | evidently intended | confidence | as-written member | corrected member |
|---|---|---|---|---|---|---|
| idapython/reentrant_int_scanner.py:80-94 | each call examines `NextHead(head)`, and the loop recurses on every `CodeRefsFrom` target, fall-through included. So every successor it recurses on is skipped: every other head of a straight run goes unexamined, and a `reti` that is a successor does not end the path | (1) heads 1..5 (`push R15`, `mov #0, R15`, `bis #1, &0`, `pop R15`, `reti`) falling through, started at 1 with depth 10 and ie_reg_addr 0: nothing is printed although head 3 writes the enable register. (2) heads 1..4 (`nop`, `nop`, `reti`, `bis #8, SR`), started at 1: head 4, behind the interrupt return, is printed | every instruction on every path from the handler entry is examined, as the comment above `find_ie_instr` says every execution path is searched, so in (1) head 3 is printed; a path ends at a `reti`, so in (2) nothing is printed | high; not executed | Scenarios.AsWrittenSkipsSuccessor, Scenarios.AsWrittenCrossesReti | ReentrantScannerFixed.FixedEmitsLivePathMatches, ReentrantScannerFixed.FixedNeverCrossesReti |

The corrected walker `ReentrantScannerFixed.FindIeFixed` examines the address it is called on and then its `CodeRefsFrom` successors. It no longer calls `NextHead`, so it takes no segment end. The as-written `ReentrantScanner.FindIeInstr` remains the model of the script; the corrected walker sits beside it for the finding.
