# UEL: rule-based unification search, SAT input, goal bookkeeping and order literals

This project models four parts of UEL, a system that computes unifiers in the
description logic EL. A unifier is a substitution for concept variables that
makes two concept terms equivalent. The model is written in Dafny and its
properties are proved.

1. **The rule-based search engine** (`RuleBasedUnificationAlgorithm`). It works
   on a normalized goal of flat subsumption records with solved flags, an
   assignment from variables to sets of subsumer atoms, and a stack of
   committed changesets (`Result`). The engine works as follows:
   - Static and dynamic eager rules propagate deterministically, in one pass
     and then in rounds until nothing new comes (`applyEagerRules`).
   - Nondeterministic rules (decomposition, then extension) offer resumable
     alternatives.
   - Each choice is committed atomically (`commitResult`) and can be undone
     exactly (`rollBackResult`).
   - The depth-first search (`solve`, `backtrack`, `computeNextUnifier`)
     returns one unifier per call.

   The model is pure: the engine is an immutable `Engine` value, and every
   operation returns the next value and a verdict `Yes | No | OutOfFuel`.
   The rule classes, `NormalizedGoal.expand` and the rule alternatives are
   not part of this model. They are supplied by an `Oracle`:
   - per rule and record, a finite number of alternatives addressed by a
     cursor;
   - an applicability test and an `apply` function;
   - the candidate records of the two forms of `goal.expand`.

   The assignment is a canonical `map<Atom, set<Atom>>`, with no empty
   entries. The goal is a sequence of records in insertion order, with the
   set of solved records.
2. **The DIMACS input builder** (`SatInput` of uel-sat). It is a clause store
   that refuses null clauses, empty clauses and clauses that contain the
   end-of-clause marker 0. It tracks the greatest variable (`lastId`) and has
   a set of literals to minimise. It renders DIMACS CNF (`toCNF`) and weighted
   WCNF (`toWCNF`). Clauses and literal sets are sequences, so the rendering
   order is fixed. A reader of the two formats proves that the renderings
   carry exactly the header and the clauses.
3. **The variable and constant bookkeeping of `Goal`** (uel.core). It covers:
   - `makeConstant` and `makeVariable`;
   - the three classification loops of `initialize`;
   - the primitive-definition rewrite of `addFlatten`, which interns a fresh
     `_UNDEF` constant.

   The atom manager is an indexed set: a sequence of distinct atoms, with
   `addAndGetIndex` as lookup-or-append.
4. **`OrderLiteral`** (uel.core): an ordered pair of names with a settable
   truth value, a hash fixed at construction, and the rendering
   `(first>second)`.

The Java `int` is modelled explicitly where it matters (`JavaInts`): the range
of `Int32`, the two's-complement wrap-around, and the negation of
`Integer.MIN_VALUE`.

Files:
- `wrappers.dfy`: `Option` and `Result`.
- `assignments.dfy`: assignments and merge and remove.
- `goals.dfy`: the goal.
- `rules.dfy`: the rules and the `Oracle`.
- `changesets.dfy`: changesets.
- `eager.dfy`: the list form of `applyEagerRules`.
- `commit.dfy`: `commitResult`.
- `undo.dfy`: `rollBackResult` and the undo invariant.
- `closure.dfy`: `applyEagerRules(parent)`.
- `search.dfy`: the search and the public operations.
- `backtracking.dfy`: the stack invariant and its preservation.
- `decimal.dfy`: decimal rendering of integers and reading them back.
- `javaint.dfy`: Java `int` arithmetic.
- `text.dfy`: splitting of separated fields.
- `satinput.dfy`: the clause store.
- `dimacs.dfy`: the CNF and WCNF renderings.
- `coregoal.dfy`: the `Goal` bookkeeping.
- `orderliteral.dfy`: `OrderLiteral`.

## Model

| member | source | states |
|---|---|---|
| Search.Construct | uel-rule/src/main/java/de/tudresden/inf/lat/uel/rule/RuleBasedUnificationAlgorithm.java:79-99 | A goal with a negative part is refused with the exact message. Otherwise the goal holds the normalized records without duplicates, and exactly the records with a variable head are solved. The assignment is empty, no search has started, `treeSize` is 1, `deadEnds` is 0 and `initialSize` is the goal size. |
| Backtracking.ConstructValid | uel-rule/src/main/java/de/tudresden/inf/lat/uel/rule/RuleBasedUnificationAlgorithm.java:79-99 | A freshly constructed engine satisfies the engine invariant. |
| Search.Cleanup | uel-rule/src/main/java/de/tudresden/inf/lat/uel/rule/RuleBasedUnificationAlgorithm.java:101-105 | Only the search stack is reset, to "no search started". |
| Backtracking.CleanupValid | uel-rule/src/main/java/de/tudresden/inf/lat/uel/rule/RuleBasedUnificationAlgorithm.java:101-105 | Cleanup keeps the engine invariant. |
| Search.Info | uel-rule/src/main/java/de/tudresden/inf/lat/uel/rule/RuleBasedUnificationAlgorithm.java:115-124 | Six statistics with distinct labels, the first being the algorithm's name. |
| Search.InfoReadsBack | uel-rule/src/main/java/de/tudresden/inf/lat/uel/rule/RuleBasedUnificationAlgorithm.java:115-124 | Each reported statistic reads back as the engine's counter: initial size, maximal goal size, tree size, dead ends, number of variables. |
| Search.Start | uel-rule/src/main/java/de/tudresden/inf/lat/uel/rule/RuleBasedUnificationAlgorithm.java:151-171 | The first search starts an empty stack and keeps the counters. |
| Search.StartIgnoresClosure | uel-rule/src/main/java/de/tudresden/inf/lat/uel/rule/RuleBasedUnificationAlgorithm.java:155-171 | The first search answers `No` exactly when the static pass, the dynamic pass or the commit fails. After those succeed, the closure's `No` is ignored (line 171): the answer is `Yes` unless the fuel ran out, and the search goes on from the state the closure left. |
| Backtracking.StartValid | uel-rule/src/main/java/de/tudresden/inf/lat/uel/rule/RuleBasedUnificationAlgorithm.java:151-171 | The initial propagation keeps the engine invariant. |
| Search.ComputeNext | uel-rule/src/main/java/de/tudresden/inf/lat/uel/rule/RuleBasedUnificationAlgorithm.java:151-180 | A `Yes` leaves every goal record solved. Afterwards a search has started, and its stack holds nondeterministic choices only. Once a search is exhausted (an empty stack), every further call answers `No` and changes nothing. |
| Backtracking.ComputeNextValid | uel-rule/src/main/java/de/tudresden/inf/lat/uel/rule/RuleBasedUnificationAlgorithm.java:151-180 | Each call keeps the engine invariant. That invariant includes: every stacked changeset undoes exactly to the state below it, and `treeSize` exceeds the stack depth. |
| Search.Unifier | uel-rule/src/main/java/de/tudresden/inf/lat/uel/rule/RuleBasedUnificationAlgorithm.java:182-195 | One non-primitive definition per variable, whose body is exactly its current subsumer set. |
| Search.UnifierDeterminesAssignment | uel-rule/src/main/java/de/tudresden/inf/lat/uel/rule/RuleBasedUnificationAlgorithm.java:182-195 | Over the same variables, two assignments give the same unifier if and only if they are equal. |
| Search.Solve | uel-rule/src/main/java/de/tudresden/inf/lat/uel/rule/RuleBasedUnificationAlgorithm.java:197-213 | `Yes` only when every record is solved. `No` only with an empty stack. Every stack entry stays a nondeterministic choice, and `treeSize` stays above the stack depth. |
| Search.Loop | uel-rule/src/main/java/de/tudresden/inf/lat/uel/rule/RuleBasedUnificationAlgorithm.java:204-211 | The same guarantees as `Solve`, for any turn function that keeps the turn shape. |
| Backtracking.SolveKeeps | uel-rule/src/main/java/de/tudresden/inf/lat/uel/rule/RuleBasedUnificationAlgorithm.java:197-213 | Unless fuel runs out, `solve` keeps the stack invariant: each changeset on the stack rolls back exactly to the state below it. |
| Backtracking.LoopKeeps | uel-rule/src/main/java/de/tudresden/inf/lat/uel/rule/RuleBasedUnificationAlgorithm.java:204-211 | The loop keeps the stack invariant whenever each turn does. |
| Backtracking.TurnWithKeeps | uel-rule/src/main/java/de/tudresden/inf/lat/uel/rule/RuleBasedUnificationAlgorithm.java:207-211 | A turn of the search (a choice, or a dead end and a backtrack) keeps the stack invariant. |
| Search.Turn | uel-rule/src/main/java/de/tudresden/inf/lat/uel/rule/RuleBasedUnificationAlgorithm.java:207-211 | `No` only with an empty stack. The stack holds choices only, and `treeSize` stays above the depth. |
| Backtracking.TurnKeeps | uel-rule/src/main/java/de/tudresden/inf/lat/uel/rule/RuleBasedUnificationAlgorithm.java:207-211 | Trying an unsolved record, and backtracking if that fails, keeps the stack invariant. |
| Search.Backtrack | uel-rule/src/main/java/de/tudresden/inf/lat/uel/rule/RuleBasedUnificationAlgorithm.java:215-224 | `No` only once the stack has emptied. The remaining entries are choices, and `treeSize` stays above the depth. |
| Search.BacktrackPops | uel-rule/src/main/java/de/tudresden/inf/lat/uel/rule/RuleBasedUnificationAlgorithm.java:215-224 | A `Yes` leaves a non-empty stack: the resumed choice on top of what remains below the popped entries. With `Backtrack`'s `No` only on an empty stack, `backtrack` fails exactly when the stack empties. |
| Backtracking.BacktrackKeeps | uel-rule/src/main/java/de/tudresden/inf/lat/uel/rule/RuleBasedUnificationAlgorithm.java:215-224 | Popping and rolling back, then resuming each popped choice, keeps the stack invariant. |
| Goals.FirstUnsolved | uel-rule/src/main/java/de/tudresden/inf/lat/uel/rule/RuleBasedUnificationAlgorithm.java:226-232 | The earliest unsolved record in goal order. None exactly when every record is solved. |
| EagerRules.EagerPass | uel-rule/src/main/java/de/tudresden/inf/lat/uel/rule/RuleBasedUnificationAlgorithm.java:234-255 | On success, it solves only unsolved records of the list, and it has no trigger and no new records. On failure, the failing changeset comes from an unsolved record of the list and a rule of the list. |
| EagerRules.Pass | uel-rule/src/main/java/de/tudresden/inf/lat/uel/rule/RuleBasedUnificationAlgorithm.java:237-253 | The accumulated changeset only grows by unsolved records of the list. A failure is returned at once, with its trigger and its rule. |
| EagerRules.FirstFiring | uel-rule/src/main/java/de/tudresden/inf/lat/uel/rule/RuleBasedUnificationAlgorithm.java:239-250 | The first rule in list order that has an application. No earlier rule has one. |
| EagerRules.PassMirrors | uel-rule/src/main/java/de/tudresden/inf/lat/uel/rule/RuleBasedUnificationAlgorithm.java:246-249 | With a given assignment, that assignment ends as the start merged with exactly the subsumers the pass accumulated. |
| EagerRules.EagerPassMirrors | uel-rule/src/main/java/de/tudresden/inf/lat/uel/rule/RuleBasedUnificationAlgorithm.java:246-249 | A successful pass over a canonical assignment leaves the assignment merged with the changeset's new subsumers. |
| EagerRules.PassSkipsSolved | uel-rule/src/main/java/de/tudresden/inf/lat/uel/rule/RuleBasedUnificationAlgorithm.java:237-238 | A pass over a list equals the pass over the list without its solved records. |
| EagerRules.PassOverSolvedIsEmpty | uel-rule/src/main/java/de/tudresden/inf/lat/uel/rule/RuleBasedUnificationAlgorithm.java:236-238 | Over solved records only, a pass returns the empty successful changeset and the assignment unchanged. |
| EagerRules.StaticPassAddsNoSubsumers | uel-rule/src/main/java/de/tudresden/inf/lat/uel/rule/RuleBasedUnificationAlgorithm.java:234-255 | When the static rules add no subsumers, neither does a pass of them. |
| EagerRules.TryApplyRule | uel-rule/src/main/java/de/tudresden/inf/lat/uel/rule/RuleBasedUnificationAlgorithm.java:360-372 | Null exactly when the rule has no first application (or no next one after `previous`). Otherwise the changeset's trigger is the record, its application is of that rule, and its cursor lies strictly after the previous one and within the rule's alternatives. |
| EagerRules.TryApplyRuleIsLeast | uel-rule/src/main/java/de/tudresden/inf/lat/uel/rule/RuleBasedUnificationAlgorithm.java:360-372 | The application tried is the least applicable cursor after `previous`: none in between is skipped, and `null` means no applicable cursor is left. |
| Rules.NextEnabled | uel-rule/src/main/java/de/tudresden/inf/lat/uel/rule/RuleBasedUnificationAlgorithm.java:362-366 | The least applicable cursor from a starting point on. Every cursor before it is not applicable. |
| Rules.IndexOf | uel-rule/src/main/java/de/tudresden/inf/lat/uel/rule/RuleBasedUnificationAlgorithm.java:258-259 | The first position of the rule in the list, as `List.indexOf`. |
| Search.TryRules | uel-rule/src/main/java/de/tudresden/inf/lat/uel/rule/RuleBasedUnificationAlgorithm.java:257-294 | On success, exactly one changeset is pushed: a nondeterministic choice triggered by the record. `treeSize` grows by 1. Otherwise the stack and `treeSize` are unchanged, and `deadEnds` only grows. |
| Search.TryRulesResumes | uel-rule/src/main/java/de/tudresden/inf/lat/uel/rule/RuleBasedUnificationAlgorithm.java:258-291 | The step resumes where `previous` left off: the pushed choice is of the rule at index `i` or a later one, and lies after `previous` when it is of the same rule. |
| Search.Alternatives | uel-rule/src/main/java/de/tudresden/inf/lat/uel/rule/RuleBasedUnificationAlgorithm.java:258-269 | The alternatives in the order the step tries them: the applications of the rule at `i` after `previous`, then those of each later rule. Each is an applicable cursor, triggered by the record, and carries the success of its `apply`. |
| Search.AlternativesComplete | uel-rule/src/main/java/de/tudresden/inf/lat/uel/rule/RuleBasedUnificationAlgorithm.java:258-293 | No applicable cursor of the rule at `i` after `previous`, or of a later rule, is missing from the alternatives. |
| Backtracking.TryRulesFirstSurvivor | uel-rule/src/main/java/de/tudresden/inf/lat/uel/rule/RuleBasedUnificationAlgorithm.java:257-294 | With the assignment restored after each failure: a `No` comes after every successful alternative was attempted and failed, one dead end each. A `Yes` pushes the first successful alternative whose attempt survived, after exactly the dead ends of the successful ones before it. |
| Backtracking.TryRulesRestores | uel-rule/src/main/java/de/tudresden/inf/lat/uel/rule/RuleBasedUnificationAlgorithm.java:257-294 | On failure, the goal and the assignment are as before. On success, the pushed changeset undoes exactly to the previous state. |
| Search.Settle | uel-rule/src/main/java/de/tudresden/inf/lat/uel/rule/RuleBasedUnificationAlgorithm.java:281-289 | A failed closure counts a dead end and keeps the stack. A successful one pushes the amended changeset and increments `treeSize`. |
| Search.DeadEnd | uel-rule/src/main/java/de/tudresden/inf/lat/uel/rule/RuleBasedUnificationAlgorithm.java:274-279 | A failed commit counts one dead end and leaves the stack and `treeSize` alone. |
| Backtracking.DeadEndRestores | uel-rule/src/main/java/de/tudresden/inf/lat/uel/rule/RuleBasedUnificationAlgorithm.java:274-279 | After the rollback of a dead end, the goal and the assignment are those before the attempt. |
| Backtracking.SettleRestores | uel-rule/src/main/java/de/tudresden/inf/lat/uel/rule/RuleBasedUnificationAlgorithm.java:281-289 | After a failed closure the state is restored. After a push, the new top rolls back exactly to the previous state and the stack invariant holds. |
| Backtracking.AttemptRestores | uel-rule/src/main/java/de/tudresden/inf/lat/uel/rule/RuleBasedUnificationAlgorithm.java:274-289 | One alternative's commit and closure either restore the state or push an exactly undoable changeset. |
| Backtracking.PushKeeps | uel-rule/src/main/java/de/tudresden/inf/lat/uel/rule/RuleBasedUnificationAlgorithm.java:287-288 | Pushing a changeset that undoes to the current state keeps the stack invariant. |
| Commits.Commit | uel-rule/src/main/java/de/tudresden/inf/lat/uel/rule/RuleBasedUnificationAlgorithm.java:390-445 | The new assignment is the given one, or the old one merged with the new subsumers, minus those already present. On failure, the changeset's subsumers are already stripped of those in the assignment. |
| Commits.CommitGrowth | uel-rule/src/main/java/de/tudresden/inf/lat/uel/rule/RuleBasedUnificationAlgorithm.java:396-434 | The goal only grows by the records the changeset reports as new, and those were not in the goal before. Every new record with a variable head is reported as newly solved. |
| Commits.CommitFlags | uel-rule/src/main/java/de/tudresden/inf/lat/uel/rule/RuleBasedUnificationAlgorithm.java:391-442 | The trigger is marked solved. Solved flags only grow, and only on new records or on records the changeset lists as solved or as trigger. Every new record with a variable head is solved. |
| Commits.AdmitFacts | uel-rule/src/main/java/de/tudresden/inf/lat/uel/rule/RuleBasedUnificationAlgorithm.java:392-407 | Records already in the goal are dropped. The others are appended, and those with a variable head move from new-unsolved to new-solved. |
| Commits.ExpandSolved | uel-rule/src/main/java/de/tudresden/inf/lat/uel/rule/RuleBasedUnificationAlgorithm.java:409-417 | Expansion appends only records it reports, new to the goal, and keeps the flags. |
| Commits.PrepareGrowth | uel-rule/src/main/java/de/tudresden/inf/lat/uel/rule/RuleBasedUnificationAlgorithm.java:396-434 | Before the static pass, the goal is extended by exactly the reported records, and new-unsolved is disjoint from the old goal. |
| Commits.PrepareFlags | uel-rule/src/main/java/de/tudresden/inf/lat/uel/rule/RuleBasedUnificationAlgorithm.java:391-422 | Before the static pass, the trigger and the new variable-headed records are solved, and no old flag is lost. |
| Undo.Rollback | uel-rule/src/main/java/de/tudresden/inf/lat/uel/rule/RuleBasedUnificationAlgorithm.java:453-464 | It removes exactly the changeset's subsumers from the assignment and its new records from the goal. It clears the flags of its solved records and of its trigger, which must be non-null. |
| Undo.RollbackRestores | uel-rule/src/main/java/de/tudresden/inf/lat/uel/rule/RuleBasedUnificationAlgorithm.java:447-464 | Rolling back an undoable changeset gives back exactly the goal (up to its maximal-size counter) and the assignment before it. |
| Undo.CommitUndoable | uel-rule/src/main/java/de/tudresden/inf/lat/uel/rule/RuleBasedUnificationAlgorithm.java:390-445 | A commit of a fresh changeset on an unsolved trigger can be undone exactly by its rollback. This rests on the de-duplication at lines 397 and 425. |
| Undo.AmendUndoable | uel-rule/src/main/java/de/tudresden/inf/lat/uel/rule/RuleBasedUnificationAlgorithm.java:333-334 | Amending an undoable changeset with an undoable round gives a changeset that undoes both at once. |
| Assignments.RemoveUndoesMerge | uel-rule/src/main/java/de/tudresden/inf/lat/uel/rule/RuleBasedUnificationAlgorithm.java:425-427 | Removing what was merged, when it was disjoint from the assignment, restores the assignment. |
| Assignments.MergeStripped | uel-rule/src/main/java/de/tudresden/inf/lat/uel/rule/RuleBasedUnificationAlgorithm.java:425-427 | Stripping present subsumers before merging changes nothing in the merge, and it makes the delta disjoint. |
| Changesets.Amend | uel-rule/src/main/java/de/tudresden/inf/lat/uel/rule/RuleBasedUnificationAlgorithm.java:334 | Amending unions each component and keeps the trigger, the application and the success flag. |
| Propagation.Absorb | uel-rule/src/main/java/de/tudresden/inf/lat/uel/rule/RuleBasedUnificationAlgorithm.java:317-318 | A pass's solved records and subsumers join the round's changeset. |
| Propagation.GatherFresh | uel-rule/src/main/java/de/tudresden/inf/lat/uel/rule/RuleBasedUnificationAlgorithm.java:313-331 | The dynamic passes of a round solve only unsolved records, report no new records, and keep the working copy equal to the assignment merged with the round's subsumers. |
| Propagation.Rounds | uel-rule/src/main/java/de/tudresden/inf/lat/uel/rule/RuleBasedUnificationAlgorithm.java:310-341 | The parent keeps its trigger and application. `Yes` only after a round with no new subsumers and no new unsolved records. |
| Propagation.RoundsKeep | uel-rule/src/main/java/de/tudresden/inf/lat/uel/rule/RuleBasedUnificationAlgorithm.java:333-336 | The parent is amended with every committed round, a failed one included. So any state property kept by each round holds of the final parent, goal and assignment. |
| Propagation.RoundUndoable | uel-rule/src/main/java/de/tudresden/inf/lat/uel/rule/RuleBasedUnificationAlgorithm.java:313-334 | One round keeps the amended parent exactly undoable. |
| Propagation.ClosureUndoable | uel-rule/src/main/java/de/tudresden/inf/lat/uel/rule/RuleBasedUnificationAlgorithm.java:305-344 | Whatever the outcome of the closure, one rollback of the amended parent undoes the whole cascade. |
| Propagation.RoundsShape | uel-rule/src/main/java/de/tudresden/inf/lat/uel/rule/RuleBasedUnificationAlgorithm.java:310-341 | The rounds keep the goal well formed and the assignment canonical. |
| Goals.AddAll | uel-rule/src/main/java/de/tudresden/inf/lat/uel/rule/RuleBasedUnificationAlgorithm.java:398 | It appends, in order, exactly the candidates not yet in the goal, unsolved. It keeps the goal duplicate-free, and the maximal size bounds the size. |
| Goals.ByBodyVariable | uel-rule/src/main/java/de/tudresden/inf/lat/uel/rule/RuleBasedUnificationAlgorithm.java:325 | Exactly the records whose body mentions the variable. |
| SatInputs.Add | uel-sat/src/main/java/de/tudresden/inf/lat/uel/sat/type/SatInput.java:97-114 | Null, empty and end-of-clause-containing clauses are refused with their own error. An accepted clause is appended and the result is true. `lastId` becomes the maximum of the old value and the clause's greatest variable, and the tracking invariant is kept. |
| SatInputs.AddUnit | uel-sat/src/main/java/de/tudresden/inf/lat/uel/sat/type/SatInput.java:85-87 | The unit clause of the literal is appended unless the literal is the end-of-clause marker. |
| SatInputs.UpdateLastId | uel-sat/src/main/java/de/tudresden/inf/lat/uel/sat/type/SatInput.java:246-256 | The result is the least value at least `lastId` and at least every literal's variable. The flag is true exactly when it rose. |
| SatInputs.AddEach | uel-sat/src/main/java/de/tudresden/inf/lat/uel/sat/type/SatInput.java:123-134 | Clauses are appended in order up to the first refused one, whose error is returned with the earlier clauses kept. On success the result says whether anything was added. |
| SatInputs.AddEachTracks | uel-sat/src/main/java/de/tudresden/inf/lat/uel/sat/type/SatInput.java:123-134 | `lastId` stays the greatest variable of the kept clauses, even after a refusal. |
| SatInputs.AddAll | uel-sat/src/main/java/de/tudresden/inf/lat/uel/sat/type/SatInput.java:123-125 | A null collection is refused and nothing changes. |
| SatInputs.AddMinimizeLiteral | uel-sat/src/main/java/de/tudresden/inf/lat/uel/sat/type/SatInput.java:143-145 | The literal joins the set. The result is true exactly when it was new, and the clauses and `lastId` are unchanged. |
| SatInputs.AddMinimizeLiterals | uel-sat/src/main/java/de/tudresden/inf/lat/uel/sat/type/SatInput.java:154-156 | All literals join the set. The result is true exactly when one of them was new. |
| SatInputs.Clear | uel-sat/src/main/java/de/tudresden/inf/lat/uel/sat/type/SatInput.java:161-164 | No clauses, `lastId` consistent with them (0), literals to minimise kept. |
| SatInputs.EqualsByClauses | uel-sat/src/main/java/de/tudresden/inf/lat/uel/sat/type/SatInput.java:166-174 | For inputs whose `lastId` tracks their clauses, equality is exactly equality of the clause lists clause by clause, position by position, each clause compared as a set. |
| SatInputs.EqualsIsEquivalence | uel-sat/src/main/java/de/tudresden/inf/lat/uel/sat/type/SatInput.java:166-174 | `equals` is an equivalence and ignores the literals to minimise. |
| SatInputs.EqualsAsWrittenMissesCopies | uel-sat/src/main/java/de/tudresden/inf/lat/uel/sat/type/SatInput.java:171 | Two separately built inputs with clause `{128}` are equal in value but not `equals` as written. |
| SatInputs.EqualsAsWrittenInCache | uel-sat/src/main/java/de/tudresden/inf/lat/uel/sat/type/SatInput.java:171 | With `lastId` in the `Integer` cache range, the written `equals` agrees with the intended one. |
| SatInputs.UpdateLastIdMissesMinInt | uel-sat/src/main/java/de/tudresden/inf/lat/uel/sat/type/SatInput.java:249 | As written, the clause `{Integer.MIN_VALUE}` leaves `lastId` at 0 although its variable is 2^31. |
| SatInputs.ToArray | uel-sat/src/main/java/de/tudresden/inf/lat/uel/sat/type/SatInput.java:58-66 | An array of the clause's length, holding its literals in iteration order, so exactly the clause's literals. |
| Dimacs.CnfRoundTrip | uel-sat/src/main/java/de/tudresden/inf/lat/uel/sat/type/SatInput.java:213-220 | Reading `toCNF` back gives the problem line `p cnf lastId |clauses|` and every clause in order. So each literal is followed by a space and each clause ends with 0 and a newline. |
| Dimacs.WcnfRoundTrip | uel-sat/src/main/java/de/tudresden/inf/lat/uel/sat/type/SatInput.java:234-244 | Reading `toWCNF` back gives the problem line with `lastId`, the clause count \|clauses\| + \|minimize literals\| and `maxWeight`. It then gives the hard clauses with weight `maxWeight`, then one soft unit clause of weight 1 holding −l for each literal l to minimise. |
| Dimacs.WcnfLayout | uel-sat/src/main/java/de/tudresden/inf/lat/uel/sat/type/SatInput.java:34-49 | `toWCNF` is its problem line followed by the hard lines, then the soft lines, each ending in a newline. |
| Dimacs.Render | uel-sat/src/main/java/de/tudresden/inf/lat/uel/sat/type/SatInput.java:16-20 | The decimal text of each literal, in order. |
| CoreGoals.MakeConstant | uel/uel.core/src/main/java/de/tudresden/inf/lat/uel/core/type/Goal.java:267-281 | It fails with an illegal argument exactly when the atom is not a concept name. A variable moves to the constants and loses both flags. Otherwise nothing changes, and the atoms, `eatoms` and equations are never touched. |
| CoreGoals.MakeVariable | uel/uel.core/src/main/java/de/tudresden/inf/lat/uel/core/type/Goal.java:283-297 | It fails with an illegal argument exactly when the atom is not a concept name. A constant moves to the variables and gets both flags. Otherwise nothing changes. |
| CoreGoals.MakeKeepsDisjoint | uel/uel.core/src/main/java/de/tudresden/inf/lat/uel/core/type/Goal.java:274-297 | Disjoint variables and constants stay disjoint under both moves. |
| CoreGoals.MakeRoundTrip | uel/uel.core/src/main/java/de/tudresden/inf/lat/uel/core/type/Goal.java:274-297 | `makeConstant` then `makeVariable` on a variable restores both sets. It restores the whole goal when both flags were set. |
| CoreGoals.Classify | uel/uel.core/src/main/java/de/tudresden/inf/lat/uel/core/type/Goal.java:239-264 | The three loops compute the classification: flagged concept names join the variables, and a non-concept-name variable raises an illegal state. Non-variable, non-existential atoms become constants, and existential restrictions go to `eatoms`. |
| CoreGoals.FlagVariables | uel/uel.core/src/main/java/de/tudresden/inf/lat/uel/core/type/Goal.java:246-252 | It fails exactly when some variable is not a concept name. Otherwise every variable gets its flag. |
| CoreGoals.CollectVariables | uel/uel.core/src/main/java/de/tudresden/inf/lat/uel/core/type/Goal.java:239-244 | The variables grow by exactly the concept names flagged as variables. |
| CoreGoals.ClassifiedPartitions | uel/uel.core/src/main/java/de/tudresden/inf/lat/uel/core/type/Goal.java:239-264 | It fails exactly when some recorded variable is not a concept name. Otherwise each atom is in exactly one of variables, constants and `eatoms`. The variables are flagged concept names, and `eatoms` are exactly the existential restrictions. |
| CoreGoals.IndexOfUnique | uel/uel.core/src/main/java/de/tudresden/inf/lat/uel/core/type/Goal.java:254-259 | In the indexed atom set, looking up an atom gives back its own index. |
| CoreGoals.AddFlatten | uel/uel.core/src/main/java/de/tudresden/inf/lat/uel/core/type/Goal.java:86-132 | It fails with an illegal state exactly when the left side is not a concept name. The left side always joins the variables, variable flag set and user flag cleared. A primitive equation is replaced by a full one whose right side also holds the interned `_UNDEF` concept name of the left side, which joins the constants. |
| CoreGoals.AddFlattenKeepsValid | uel/uel.core/src/main/java/de/tudresden/inf/lat/uel/core/type/Goal.java:119-129 | Every index stays inside the atom manager and the atoms stay distinct. A second primitive equation for the same left side reuses the same `_UNDEF` atom. |
| CoreGoals.InternKeepsUnique | uel/uel.core/src/main/java/de/tudresden/inf/lat/uel/core/type/Goal.java:122-123 | Lookup-or-append keeps the atoms distinct, and repeating it changes nothing. |
| OrderLiterals.Make | uel/uel.core/src/main/java/de/tudresden/inf/lat/uel/core/type/OrderLiteral.java:22-26 | The first and second components are the arguments, the value is false, and the stored hash is that of the pair. |
| OrderLiterals.SetValue | uel/uel.core/src/main/java/de/tudresden/inf/lat/uel/core/type/OrderLiteral.java:70-72 | Only the value changes, to the argument. |
| OrderLiterals.GetValue | uel/uel.core/src/main/java/de/tudresden/inf/lat/uel/core/type/OrderLiteral.java:50-52 | Setting the value just read changes nothing. |
| OrderLiterals.HashIgnoresValue | uel/uel.core/src/main/java/de/tudresden/inf/lat/uel/core/type/OrderLiteral.java:54-57 | `setValue` never changes `hashCode`, which stays the hash of the pair. |
| OrderLiterals.PairHash | uel/uel.core/src/main/java/de/tudresden/inf/lat/uel/core/type/OrderLiteral.java:25 | The hash equals `h(first) + 31 * h(second)` modulo 2^32. |
| OrderLiterals.EqualsIsIdentity | uel/uel.core/src/main/java/de/tudresden/inf/lat/uel/core/type/OrderLiteral.java:29-37 | Under one hash function, `equals` holds exactly for the same value, first and second. Equal literals have equal hashes. |
| OrderLiterals.EqualsIsEquivalence | uel/uel.core/src/main/java/de/tudresden/inf/lat/uel/core/type/OrderLiteral.java:29-37 | `equals` is an equivalence and is false for other objects and null. |
| OrderLiterals.SetValueHashed | uel/uel.core/src/main/java/de/tudresden/inf/lat/uel/core/type/OrderLiteral.java:70-72 | After `setValue`, the hash is still that of the pair, and the literal equals its old self exactly when the value is unchanged. |
| OrderLiterals.IsOrder | uel/uel.core/src/main/java/de/tudresden/inf/lat/uel/core/type/OrderLiteral.java:59-62 | Always true. |
| OrderLiterals.IsSubsumption | uel/uel.core/src/main/java/de/tudresden/inf/lat/uel/core/type/OrderLiteral.java:64-67 | Always false. |
| OrderLiterals.ToString | uel/uel.core/src/main/java/de/tudresden/inf/lat/uel/core/type/OrderLiteral.java:75-82 | The rendering is three characters longer than the two names. |
| OrderLiterals.ToStringRoundTrip | uel/uel.core/src/main/java/de/tudresden/inf/lat/uel/core/type/OrderLiteral.java:75-82 | `(first>second)` reads back as the pair when the first name holds no `>`. |
| OrderLiterals.ToStringAmbiguous | uel/uel.core/src/main/java/de/tudresden/inf/lat/uel/core/type/OrderLiteral.java:75-82 | Without that condition two different pairs render alike. |

## Left out

- The rule classes, `NormalizedGoal`, `Assignment`, `Result` and `FlatSubsumption` are not part of this model. The rules are a closed datatype, and their applications, `apply` and `goal.expand` come from an `Oracle` of functions. `expand` is assumed to append the records it creates and to return exactly those that were not present.
- Rules.Delta: a rule application reports success, new records and new subsumers, but no solved records of its own. The rule classes are not part of this model. `commitResult` never marks such records solved, and only `rollBackResult` (lines 459-461 of RuleBasedUnificationAlgorithm.java) would clear them. Every rule result therefore starts with an empty solved set.
- The interrupt check in `solve` (lines 200-202) is left out: it concerns thread cancellation.
- The search loop and the closure's do-while loop need not terminate for an arbitrary `expand`, so they take fuel. `OutOfFuel` stands for a run cut short: the fuel bound leaves runs longer than the fuel unmodelled, and no property is claimed about the stack after `OutOfFuel`.
- Backtracking.SolveKeeps, Undo.CommitUndoable, Propagation.ClosureUndoable: these are proved under the hypothesis that the static eager rules add no subsumers. The rule classes that would discharge it are not part of this model.
- Iteration order of `HashSet`/`HashMap`: the keys of an assignment are visited in ascending order, and goal records in insertion order. Clauses and literal sets are sequences, so the rendering order is that of the sequence.
- `getUnifier`'s translation through the `AtomManager`: a definition's body is the variable's subsumer set of atoms.
- `Main.java`, logging and the KRSS rendering (`Goal.toString`) are left out: they are I/O.
- `SatSolver` is not part of this model. Its constants are taken to be `P_CNF = "p cnf"`, `P_WCNF = "p wcnf"`, `SPACE = " "`, `END_OF_CLAUSE = 0` and `NEWLINE = "\n"`.
- `SatInput.hashCode` and `toString`, and `getClauses`, `getLastId` and `getMinimizeLiterals` (plain field reads), are left out. A null literal inside a clause set is not modelled, because clauses are sequences of `int`.
- The clause counts printed by `toCNF`/`toWCNF` are unbounded integers: a Java `int` overflow beyond 2^31 − 1 clauses is not modelled.
- SatInputs.Add, SatInputs.AddUnit, SatInputs.AddEach: they raise `lastId` to the true greatest variable of the clause, the corrected behaviour. For a clause holding `Integer.MIN_VALUE` the source leaves `lastId` unchanged instead (see Findings).
- SatInputs.UpdateLastId: it keeps `lastId` unbounded and computes the true variable, which is the corrected behaviour. The as-written `int` computation is `UpdateLastIdAsWritten` (see Findings).
- In `Goal`:
  - the ontology recursion (`exportDefinitions`, `importAnyDefinition`, line 111) is left out, because `Ontology` is not part of this model;
  - the duplicate check at line 95 is the opaque argument `defined` of `AddFlatten`, because `ConceptName.getName` is not part of this model;
  - the partial state left behind when `initialize` throws is not modelled: the result is only the error;
  - an atom id outside the atom manager is a precondition, because `IndexedSet.get` is not part of this model;
  - `IndexedSet` is assumed to be a duplicate-free indexed list whose `addAndGetIndex` returns the index of an equal atom or appends;
  - the second classification loop visits the variables in ascending order; only the outcome, not which variable is reported first, is modelled.
- `String.hashCode` is an abstract function `h`, and `toString` of the names is the identity.
- `OrderLiteral.getFirst`/`getSecond` are the datatype's fields.

## Findings

| source | as written | input that shows it | evidently intended | confidence | as-written member | corrected member |
|---|---|---|---|---|---|---|
| uel-sat/src/main/java/de/tudresden/inf/lat/uel/sat/type/SatInput.java:171 | `this.lastId == other.lastId` compares two `Integer` objects by reference | two inputs each built by adding the clause `{128}`: equal clause lists, `lastId` 128 in two distinct `Integer` objects, so `equals` is false | compare `lastId` by value (`equals`) | not executed | SatInputs.EqualsAsWrittenMissesCopies | SatInputs.EqualsByClauses |
| uel-sat/src/main/java/de/tudresden/inf/lat/uel/sat/type/SatInput.java:249 | the absolute value `(-1) * elem` in `int` arithmetic | the clause `{Integer.MIN_VALUE}`: `(-1) * MIN_VALUE` is `MIN_VALUE`, negative, so `lastId` stays 0 and the header claims no variables | the variable 2^31 of that literal (or refusing the literal) | not executed | SatInputs.UpdateLastIdMissesMinInt | SatInputs.UpdateLastId |
