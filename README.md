# LR(1) table generator: a verified model

This project models `ParserGenerator`, the table generator of a small LR(1) parser
generator written in C++. The generator takes a context-free grammar: a list of rules,
with rule 0 the augmented start rule, and a vocabulary of tokens. It then runs five
stages in turn:

1. FIRST sets, a monotone fixpoint.
2. FOLLOW sets, a monotone fixpoint.
3. The canonical collection of LR(1) item sets, built with closure and goto.
4. The ACTION table, with shift/reduce, shift/shift and reduce/reduce conflict checks.
5. The GOTO table.

A grammar is rejected as ambiguous at the first conflicting ACTION entry.

The model follows the source's shape. Helpers that only compute are functions:

- `QualName`, `IsTerminal`/`IsNonTerminal`, `DotAtEnd`, `NextToken` (module `Entities`).

Each stage that changes state step by step is a method of the class
`Automaton.ParserGenerator`. The class has the generator's fields:

- `first`, `follow`;
- `states` (the collection, indexed by position);
- `action`, `gotoTable`.

Each method has its loops and their invariants. Each is proved against specification
functions in modules of its own:

- **`Sets`**: maps of sets, read with a missing key as the empty set, and the
  finite-measure lemmas behind the fixpoint loops.
- **`FirstFollow`**: FIRST of a symbol sequence, and the conditions FIRST and FOLLOW
  meet at their fixpoints.
- **`Lr1Items`**: closure and goto as mathematical functions.
- **`Collection`**: what it means for a sequence of states to be *the* canonical
  collection, and why the collection is unique up to numbering.
- **`Tables`**:
  - the entry each item demands;
  - insertion with conflict checks;
  - what a row built from a state's items contains, in every visiting order.

The source throws on a conflict. The model turns that into an `Outcome` value that
carries the conflict's kind and the ACTION key. Tokens and terminals compare
structurally.

## Model

| member | source | states |
|---|---|---|
| Entities.QualNameKeys | src/pargen/Automaton.cpp:33-44 | Two tokens share an ACTION key exactly when they are of the same kind (plain terminal `T_`, pattern terminal `R_`, non-terminal `NT_`) and have the same name, so keys of different kinds never collide; the end marker `$` has the key `R_$` |
| Entities.QualName | src/pargen/Automaton.cpp:33-44 | No contract of its own, so that the key stays cheap to reason about wherever ACTION keys appear; `QualNameKeys` states what the key means |
| Entities.IsTerminal | src/pargen/Automaton.cpp:25-27 | A partition fact: a token is a terminal exactly when its key kind is not the non-terminal kind |
| Entities.IsNonTerminal | src/pargen/Automaton.cpp:29-31 | A partition fact: a token is a non-terminal exactly when it is not a terminal |
| Entities.DotAtEnd | src/pargen/Automaton.cpp:14-16 | No contract of its own; `NextToken` states its meaning: a next symbol exists exactly when the dot is not at the end |
| Entities.NextToken | src/pargen/Automaton.cpp:14-23 | There is a next symbol exactly when the dot is before the end of the rule's production |
| Automaton.ParserGenerator.constructor | src/pargen/Automaton.cpp:53-55 | The generator keeps the rules and adds the end marker `$` to the vocabulary; all tables start empty |
| Automaton.ParserGenerator.FirstForSequence | src/pargen/Automaton.cpp:254-277 | The scan returns FIRST of the sequence as specified by `FirstOfSeq`, including `{EPSILON}` for the empty sequence |
| FirstFollow.FirstOfSeqEpsilon | src/pargen/Automaton.cpp:254-277 | EPSILON is in FIRST of a sequence exactly when every symbol of it is nullable |
| FirstFollow.FirstOfSeqMembers | src/pargen/Automaton.cpp:254-277 | A terminal other than EPSILON is in FIRST of a sequence exactly when it is in FIRST of some symbol all of whose predecessors are nullable |
| FirstFollow.FirstOfSeqWithin | src/pargen/Automaton.cpp:254-277 | FIRST of a sequence draws only on terminals stored in the FIRST table, plus EPSILON |
| FirstFollow.FirstOfSeqSame | src/pargen/Automaton.cpp:258-262 | FIRST of a sequence depends only on the sets stored, not on which keys exist (an absent key reads as the empty set) |
| FirstFollow.FirstOfSeqBound | src/pargen/Automaton.cpp:254-277 | FIRST of a sequence lies within any set holding FIRST minus EPSILON of each symbol reached through nullable predecessors, and EPSILON when the whole sequence is nullable |
| Automaton.ParserGenerator.AddFirstOf | src/pargen/Automaton.cpp:228-239 | FIRST(lhs) gains FIRST(X) minus EPSILON and nothing else changes; reports whether FIRST(X) held EPSILON and, through the size comparison, whether FIRST(lhs) grew |
| Automaton.ParserGenerator.FirstRule | src/pargen/Automaton.cpp:225-249 | One rule's scan leaves FIRST(lhs) equal to its old value united with FIRST of the production, changes no other entry, and reports growth exactly when FIRST of the production was not already contained |
| FirstFollow.ScanStep | src/pargen/Automaton.cpp:228-243 | Each step of the scan keeps the total it will reach, even when the scanned symbol is the left-hand side itself |
| Automaton.ParserGenerator.SeedFirst | src/pargen/Automaton.cpp:214-221 | FIRST(t) = {t} for every vocabulary terminal, FIRST(N) = {} for every vocabulary non-terminal, FIRST(EPSILON) = {EPSILON}; other entries are untouched |
| Automaton.ParserGenerator.FirstPass | src/pargen/Automaton.cpp:223-250 | One pass over all rules: FIRST only grows; a reported change means strictly more (symbol, terminal) pairs; no change means every rule's FIRST condition holds |
| Automaton.ParserGenerator.ComputeFirst | src/pargen/Automaton.cpp:213-252 | Terminates, and afterwards FIRST is seeded and closed: FIRST of every production is contained in FIRST of its left-hand side; entries outside the vocabulary only grew and no terminal outside the vocabulary, EPSILON and the old table appears |
| FirstFollow.FirstClosedRule | src/pargen/Automaton.cpp:225-249 | The closed FIRST table, symbol by symbol: a nullable production puts EPSILON into FIRST(lhs), and every terminal that can begin the production is in FIRST(lhs) |
| Automaton.ParserGenerator.FollowAddition | src/pargen/Automaton.cpp:289-305 | What position i adds to FOLLOW(B): FIRST of the rest minus EPSILON, plus FOLLOW(lhs) when the rest is empty or nullable |
| FirstFollow.FollowGainOk | src/pargen/Automaton.cpp:289-305 | Adding that gain meets the FOLLOW conditions for position i, and draws only on FOLLOW(B), FOLLOW(lhs) and stored FIRST terminals |
| Automaton.ParserGenerator.FollowAt | src/pargen/Automaton.cpp:285-309 | Handles one position: skips terminals; otherwise FOLLOW(B) grows by the gain and nothing else changes, the FOLLOW conditions hold there, and growth is reported exactly when a set changed |
| Automaton.ParserGenerator.FollowRule | src/pargen/Automaton.cpp:285-310 | Every position of one rule: FOLLOW only grows; growth means strictly more pairs; no growth means the FOLLOW conditions of all positions of the rule hold |
| Automaton.ParserGenerator.FollowPass | src/pargen/Automaton.cpp:282-311 | One pass over all rules; no change means every FOLLOW condition of every rule holds |
| Automaton.ParserGenerator.ComputeFollow | src/pargen/Automaton.cpp:279-314 | Terminates with `$` in FOLLOW of rule 0's left-hand side, and with every condition met: for B at position i with rest beta, FIRST(beta) minus EPSILON is in FOLLOW(B) when beta is non-empty, and FOLLOW(lhs) is in FOLLOW(B) when beta is empty or nullable; sets other than the start symbol's only grow, and no new terminal beyond `$` and FIRST's appears |
| FirstFollow.FollowOkSame | src/pargen/Automaton.cpp:279-314 | The FOLLOW conditions depend only on the sets stored, so a pass that changed no size leaves them valid |
| Automaton.ParserGenerator.Expand | src/pargen/Automaton.cpp:324-345 | The items one item adds: `(i, 0, t)` for each rule i of the non-terminal after the dot and each t in FIRST(beta la), with `[EPSILON, la]` used for an empty beta; nothing for a completed item or a terminal after the dot |
| Automaton.ParserGenerator.ClosurePass | src/pargen/Automaton.cpp:320-346 | One pass collects exactly what every item of the closure adds |
| Automaton.ParserGenerator.Closure | src/pargen/Automaton.cpp:316-356 | Terminates with exactly the closure `ClosureFn` of the items |
| Lr1Items.ClosureContains | src/pargen/Automaton.cpp:319 | The closure contains the given items |
| Lr1Items.ClosureClosed | src/pargen/Automaton.cpp:324-345 | For every item of the closure with non-terminal B after the dot and every rule i of B, every `(i, 0, t)` with t in FIRST(beta la) is in the closure |
| Lr1Items.ClosureLeast | src/pargen/Automaton.cpp:316-356 | The closure is the least superset of the items closed under that rule |
| Lr1Items.ClosureAddsDotZero | src/pargen/Automaton.cpp:340-342 | Every added item has dot 0 and an existing rule |
| Lr1Items.CompletedItemAddsNothing | src/pargen/Automaton.cpp:324-326 | An item with the dot at the end adds nothing but itself to a closure |
| Lr1Items.ClosureIdempotent | src/pargen/Automaton.cpp:316-356 | Closing a closure changes nothing |
| Lr1Items.ClosureMono | src/pargen/Automaton.cpp:316-356 | Closure is monotone |
| Lr1Items.ClosureIsFixpoint | src/pargen/Automaton.cpp:320-353 | The closure is a fixpoint of one expansion pass: expanding it adds nothing new, the loop's exit condition |
| Lr1Items.ClosureWithin | src/pargen/Automaton.cpp:316-356 | Closing items over existing rules, with lookaheads drawn from FIRST and EPSILON, stays within that finite item universe |
| Lr1Items.ClosureValid | src/pargen/Automaton.cpp:340-342 | Closing a state whose items name existing rules gives such a state |
| Automaton.ParserGenerator.Goto | src/pargen/Automaton.cpp:358-369 | Returns the closure of the kernel `{(r, d+1, la) \| (r, d, la) in state, next symbol = x}` |
| Lr1Items.GotoShape | src/pargen/Automaton.cpp:358-369 | The kernel is in the goto, and every item of the goto with a dot past 0 comes from an item of the state that had x after its dot, with the same lookahead |
| Lr1Items.GotoEmpty | src/pargen/Automaton.cpp:358-369 | The goto is empty exactly when no item of the state has x after its dot |
| Lr1Items.GotoWithin | src/pargen/Automaton.cpp:358-369 | Goto of a state within the finite item universe stays within it, which bounds the number of states |
| Automaton.ParserGenerator.StateSuccessors | src/pargen/Automaton.cpp:88-94 | Collects every non-empty goto of state k over the vocabulary, and nothing else: each result is a non-empty goto of state k over some vocabulary token |
| Automaton.ParserGenerator.Successors | src/pargen/Automaton.cpp:86-95 | Collects exactly the non-empty gotos of collected states: each result is one, and every one is in the result |
| Automaton.AppendNew | src/pargen/Automaton.cpp:96-102 | Appends the states not yet collected, each once, keeping the old indices and distinctness |
| Automaton.ParserGenerator.CollectionPass | src/pargen/Automaton.cpp:84-105 | One pass keeps the old indices, distinctness and discovery; a change means a new state; no change means the collection is closed under goto |
| Automaton.ParserGenerator.BuildCanonicalCollection | src/pargen/Automaton.cpp:77-106 | Terminates with a canonical collection: state 0 is the closure of `(0, 0, $)`, indices are dense and states distinct and non-empty, every non-empty goto of a collected state over a vocabulary token is collected, and every later state is a goto of an earlier one |
| Collection.CanonicalUnique | src/pargen/Automaton.cpp:77-106 | Two canonical collections of one grammar have the same states and size; only the numbering can differ |
| Collection.CollectedInOther | src/pargen/Automaton.cpp:77-106 | Every state of one canonical collection is collected in any other canonical collection of the same grammar |
| Collection.DiscoveredAppend | src/pargen/Automaton.cpp:96-102 | Appending gotos of already collected states keeps every state reachable from state 0 through earlier states |
| Automaton.GotoTargetOfCanonical | src/pargen/Automaton.cpp:77-106 | Over a canonical collection, a goto over a vocabulary non-terminal is collected exactly when it is non-empty, and its index names it |
| Collection.IndexOf | src/pargen/Automaton.cpp:117-120 | The index of a collected state points at it; an uncollected state gets index 0, the shift target's default |
| Tables.Demand | src/pargen/Automaton.cpp:111-193 | The entry each item demands is well formed: SHIFT for a terminal after the dot, REDUCE on the lookahead for EPSILON after the dot, for a completed item REDUCE on the key of its lookahead, or, for rule 0, ACCEPT on `R_$` |
| Automaton.ParserGenerator.ItemAction | src/pargen/Automaton.cpp:111-178 | Computes exactly the entry `Demand` gives, with the shift target found through goto and the collection |
| Tables.Insert | src/pargen/Automaton.cpp:121-192 | The corrected insertion: a conflict exactly when the key already holds a different action, reported with the insertion point's conflict kind and the key; `InsertCorrectionScope` relates it to the insertion as written and `FoldAgree` to a whole row |
| Tables.InsertAsWritten | src/pargen/Automaton.cpp:121-192 | The insertion as written: a success always overwrites the key; a conflict is only ever raised against an existing SHIFT or REDUCE, never against an existing ACCEPT, which is always overwritten |
| Tables.InsertCorrectionScope | src/pargen/Automaton.cpp:121-192 | When neither the existing entry nor the new action is ACCEPT, the corrected insertion agrees with the as-written one, conflict kind included |
| Tables.FoldAgree | src/pargen/Automaton.cpp:110-196 | A sequence of insertions succeeds exactly when no two entries for one key differ and none differs from the starting row |
| Tables.FoldContents | src/pargen/Automaton.cpp:110-196 | A successful sequence of insertions yields a row holding every inserted entry and the starting row, and no other key |
| Tables.Fold | src/pargen/Automaton.cpp:111-194 | Inserting a state's entries one by one, stopping at the first conflict; a conflict is reported on the key of one of the inserted entries |
| Tables.FoldConflictKind | src/pargen/Automaton.cpp:121-192 | A failed fold stops at the first insertion that finds a different action under its key. The conflict names that key, and its kind is the one that insertion point reports for the action found: shift/reduce, shift/shift, reduce/reduce, or the generic ambiguity of a completed item |
| Tables.FoldAsWritten | src/pargen/Automaton.cpp:111-194 | The same loop with the insertion as written; without ACCEPT entries it gives exactly what the corrected fold gives, and leaves a row of SHIFT and REDUCE entries only |
| Tables.DemandsContent | src/pargen/Automaton.cpp:111-193 | The entries inserted for a visiting order are exactly the entries its items demand |
| Tables.AgreeFromState | src/pargen/Automaton.cpp:110-196 | When a state's entries agree with each other and the starting row, the inserted sequence agrees for any order of a subset of its items |
| Tables.StateFromAgree | src/pargen/Automaton.cpp:110-196 | When the inserted sequence covering all the state's items agrees, the state's entries agree |
| Tables.RowOfState | src/pargen/Automaton.cpp:110-196 | For any order of visiting a state's items: filling the row succeeds exactly when the state's entries agree with each other and with the starting row, and the row then holds each demanded entry, keeps the starting row and adds no other key |
| Tables.TableRowsHold | src/pargen/Automaton.cpp:108-196 | A table built without conflict holds, in every row, each entry its state demands, keeps the starting row and adds no other key |
| Tables.ConflictShowsDisagreement | src/pargen/Automaton.cpp:121-192 | A conflict while filling a row means the state's entries disagree, on a key some item demanded |
| Tables.TableConflictExplained | src/pargen/Automaton.cpp:121-192 | The conflict an ambiguous table reports arises in a collected state whose entries disagree, on a key that one of its items demands |
| Tables.Resize | src/pargen/Automaton.cpp:109 | Resizing gives one row per state, keeping the existing rows and adding empty ones |
| Automaton.ParserGenerator.InsertItems | src/pargen/Automaton.cpp:111-194 | Inserting a state's entries in visiting order gives the fold of its demands, stops at the first conflict, and on success has visited every item once |
| Automaton.ParserGenerator.FillRow | src/pargen/Automaton.cpp:111-194 | A row is filled without conflict exactly when the state's entries agree |
| Tables.TableStepErr | src/pargen/Automaton.cpp:108-196 | A conflict in one row ends the table with that row as it stood, later rows untouched, and means the table's entries disagree |
| Tables.TableStepOk | src/pargen/Automaton.cpp:108-196 | A row filled without conflict extends the finished prefix by one state whose entries agree |
| Tables.TableDone | src/pargen/Automaton.cpp:108-196 | When every row is filled, the table is a success and every state's entries agree |
| Automaton.ParserGenerator.BuildActionTable | src/pargen/Automaton.cpp:108-196 | One row per state; success exactly when every state's entries agree; on success each row is the fold of its state's demands; on a conflict, the rows before the conflicting state are complete, the conflicting row is partial and the later rows are untouched |
| Automaton.ParserGenerator.GotoRow | src/pargen/Automaton.cpp:200-209 | For every non-terminal of the vocabulary whose goto from the state is collected, the row holds that state's index; every other entry is kept |
| Automaton.ParserGenerator.BuildGotoTable | src/pargen/Automaton.cpp:198-211 | `goto[i][N]` is set exactly when N is a vocabulary non-terminal and the goto of state i over N is collected, to that state's index; other entries are kept |
| Automaton.ParserGenerator.BuildTables | src/pargen/Automaton.cpp:61-62 | ACTION, then GOTO only when ACTION met no conflict; on success every row holds every entry its items demand and no other new key; on a conflict GOTO is untouched, the reported key is demanded by an item of a state whose entries disagree, and the reported conflict, kind included, is exactly the failure of that state's fold in the recorded visiting order |
| Automaton.ParserGenerator.Analyse | src/pargen/Automaton.cpp:57-60 | FIRST and FOLLOW meet their conditions and the collection is canonical |
| Automaton.ParserGenerator.Generate | src/pargen/Automaton.cpp:57-63 | After the pipeline, FIRST and FOLLOW meet their conditions, the collection is canonical, and the tables are as `BuildTables` states; the outcome is a success exactly when no state's entries disagree, and a reported conflict names a key demanded by an item of a state whose entries disagree, and is, kind included, exactly the failure of that state's fold in the recorded visiting order |
| Tables.AcceptCollisionDependsOnOrder | src/pargen/Automaton.cpp:180-192 | As written, ACCEPT then REDUCE on `R_$` silently leaves REDUCE, while REDUCE then ACCEPT is a conflict; likewise ACCEPT then SHIFT |
| Tables.CyclicGrammarDemands | src/pargen/Automaton.cpp:170-178 | In the grammar S'→S, S→A, A→S, A→id, the items (0, 1, $) and (2, 1, $) demand ACCEPT and REDUCE 2 on the same key `R_$` |
| Tables.CyclicGrammarCollected | src/pargen/Automaton.cpp:77-106 | In that grammar, with FIRST seeded, both items lie in one collected state of every canonical collection: the goto of state 0 over S |

## Left out

- `src/codegen/CodeGenerator.cpp` is not part of this model. It writes files, runs `flex` and prints C++ text.
- The exact text of the error messages. A conflict carries its kind and its key instead.
- The copy accessors `GetActionTable`, `GetGotoTable` and `GetFollowSets` (src/pargen/Automaton.cpp:65-75).
- The iteration order of `std::set`.
  - Items of a state, tokens and new states are taken in an arbitrary order (`:|`).
  - `BuildActionTable` records the order it used in the ghost result `orders`.
  - Every property is stated for all orders.
  - The state numbering within a pass is not fixed, only dense and deduplicated.
- The bimap `states_` is a sequence of distinct states; the index is the position. The unused set `c_set` is left out.
- `std::map::operator[]` creating empty entries: a missing key reads as the empty set (`Sets.Get`). Contracts compare tables by the sets they store (`SameSets`, `Grows`).
- ComputeFirst: proves the closure conditions, not that FIRST is the least table meeting them. No later stage relies on leastness: FOLLOW, closure and the tables use only the seeding and closure conditions, which are proved.
- ComputeFollow: proves the closure conditions, not that FOLLOW is the least table meeting them. FOLLOW is only handed out by its accessor (src/pargen/Automaton.cpp:73-75); no other stage of the generator reads it, so nothing here depends on leastness.
- Automaton.ParserGenerator.FollowAddition: unions FIRST(beta) minus EPSILON and FOLLOW(lhs) before one insertion. The source inserts them in two steps; the resulting set is the same.
- Automaton.ParserGenerator.Expand: the per-rule insertion loop over the FIRST set is one set comprehension.
- Automaton.ParserGenerator.BuildActionTable: fills a local copy of the table and assigns it once, on success or at the conflict. The source writes `action_` in place; the observable table is the same.
- `Entities.h` is not part of this model. Terminals and non-terminals compare structurally, by name and pattern.
- Grammars with no rules are not covered: `Generate` requires a rule 0, which the source indexes without a check.
- Tables.Insert: the model uses the corrected insertion (see Findings). With an ACCEPT involved, it reports a conflict where the source silently overwrites.
- Automaton.ParserGenerator.BuildActionTable, Automaton.ParserGenerator.InsertItems, Automaton.ParserGenerator.FillRow, Automaton.ParserGenerator.BuildTables, Automaton.ParserGenerator.Generate: these compute with the corrected insertion. For a grammar where an ACCEPT collides, such as the cyclic grammar under Findings, the model returns `Ambiguity` where the source finishes normally.

## Findings

| source | as written | input that shows it | evidently intended | confidence | as-written member | corrected member |
|---|---|---|---|---|---|---|
| src/pargen/Automaton.cpp:121-192 | An existing ACCEPT entry is never checked. SHIFT, the EPSILON-triggered REDUCE and a completed item's REDUCE all overwrite it. ACCEPT also overwrites an existing REDUCE of rule 0. Whether a conflict on `R_$` is reported therefore depends on the order in which the state's items are visited | Grammar S'→S, S→A, A→S, A→id. The state reached over S holds (0, 1, $) and (2, 1, $), which demand ACCEPT and REDUCE 2 on `R_$`. Visiting REDUCE first is a conflict; visiting ACCEPT first silently keeps REDUCE 2. The conclusion needs only that (0, 1, $) is visited before (2, 1, $). That holds under the item type's total order by (rule, dot, lookahead); the item type is not part of this model. It accepts this ambiguous grammar without error, and its finished table has no ACCEPT entry in any row | Any two different actions for one key are a conflict, whatever the visiting order | medium, not executed | Tables.InsertAsWritten, Tables.AcceptCollisionDependsOnOrder, Tables.CyclicGrammarDemands, Tables.CyclicGrammarCollected | Tables.Insert, Tables.FoldAgree, Tables.RowOfState |
