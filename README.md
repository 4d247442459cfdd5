# Trace analysers of a CDCL solver, modelled in Dafny

The repository instruments MiniSat so that it logs every step of its search.
The log records original clauses, implications, branches, conflicts with their
learned clauses, clause deletions, restarts and clause-id remaps. Two analysers
replay such a trace and work out which parts of it the final refutation
depended on:

- `minisat/core/analysis/analyze_trace.cc` (the newer analyser). It replays
  the whole trace. When the empty clause appears, it marks the empty clause
  required. The mark spreads backwards through antecedents and captured
  dependencies. It then prints every event, prefixed `~ ` when the event is
  skippable and `! ` when it is required.
- `minisat/core/analyze_trace.py` (the older analyser). It replays
  implications, branches, conflicts and deletions. When a conflict is followed
  by the `0` line, it marks the learned empty clause needed. It then writes the
  literals of the needed branches.

Both analysers keep event objects that point at older objects. The model puts
these objects in an arena: `nodes: seq<Node>`, in which every pointer names an
earlier index (`EventGraph.WF`). The flags that the source mutates on its
objects (`required`, `skippable`, `deletion_time`, `is_needed`) are sequences
indexed by arena position. Each analyser's global state is a class with one
field per vector or dict: `CcAnalysis.Analyzer` and
`PyAnalysis.TraceAnalyzer`. Its operations are methods that change those
fields, and loops are `while` loops with invariants. Each method is proved
against specification functions:

- `Mark` and `MarkAll` for marking;
- `Reaches` and `Closed` for what marking achieves;
- `Skippable` for `is_skippable`;
- `Falsifiers`, `Opposers` and `LearnedNeeds` for the dependency captures;
- `Remapped` for clause movement;
- `Cut` and `PyIndex` for backtracking;
- `BranchIndices` and `NeededBranchLits` for the Python output;
- `Fails` for when a line of the Python main loop raises;
- `Next` and `Replays` for what the Python main loop does to the analyser's
  state, written on `State` values, line by line and over a run.

A trace is given to the model already parsed, as a `seq<Trace.Record>`. A
record that the source rejects makes a replay step fail. The C++ analyser
reports such a trace as `Malformed`; the Python one as `Crashed`.

Files:

| file | contents |
|---|---|
| `wrappers.dfy` | `Option` |
| `trace.dfy` | trace records, literals, `Others` and `Lookup` |
| `graph.dfy` | the event arena, marking and reachability, skippability |
| `trail.dfy` | the trail and assignment-table invariant, backtracking, the C++ falsifier capture |
| `remap.dfy` | the C++ clause-id table and `m` blocks |
| `cc_analysis.dfy` | the newer analyser |
| `py_analysis.dfy` | the older analyser |

Behaviour of the code worth noting (the model follows it):

- The C++ analyser prints every event, with `~ ` and `! ` prefixes. It does not
  print only the needed branches, deletions and resets.
- `r` only backtracks to level 0. No Reset event is ever created.
- Every `d` record appends a Deletion event, including deletions before the
  first branch.
- A Deletion prints the deleted clause together with its deletion time.
- In the C++ analyser, backtracking to the current level is allowed and does
  nothing. In the Python analyser it fails, because `trail_lim[level]` is out
  of range.
- An unnumbered empty original clause ends the C++ replay like a learned empty
  clause does: it is marked required and the events are written out.

## Model

| member | source | states |
|---|---|---|
| EventGraph.Mark | minisat/core/analysis/analyze_trace.cc:240-254 | `set_required` plus `handle_required`: the node ends up marked, no mark is removed, and nothing newer than the node changes |
| EventGraph.MarkAll | minisat/core/analysis/analyze_trace.cc:246-252 | marking each listed node in turn: every listed node ends up marked, no mark is removed, nothing at or past the bound changes |
| EventGraph.ReachesBelow | minisat/core/analysis/analyze_trace.cc:80-112 | antecedents and dependencies are always older objects, so whatever a node reaches is at or below it (the dependency graph is acyclic) |
| EventGraph.MarkSpec | minisat/core/analysis/analyze_trace.cc:240-254 | marking node i from a closed marking gives exactly the old marks plus everything i reaches, and keeps the marking closed |
| EventGraph.MarkAllSpec | minisat/core/analysis/analyze_trace.cc:323-335 | marking a list of nodes gives exactly the old marks plus everything the listed nodes reach, and keeps the marking closed |
| EventGraph.MarkClosure | minisat/core/analysis/analyze_trace.cc:544 | from a closed marking, marking the empty clause marks exactly what it reaches, and the result is closed |
| EventGraph.MarkIdempotent | minisat/core/analysis/analyze_trace.cc:45 | marking again anything already reached by a mark changes nothing |
| EventGraph.SkippableUnrequired | minisat/core/analysis/analyze_trace.cc:262-263 | a required event is never skippable |
| EventGraph.SkippableRoot | minisat/core/analysis/analyze_trace.cc:256-280 | a skippable event reaches an unrequired branch or an unrequired implication without antecedent |
| EventGraph.SkipVia | minisat/core/analysis/analyze_trace.cc:337-359 | an event with a skippable antecedent or dependency reaches such a free decision |
| Trail.TableEntries | minisat/core/analysis/analyze_trace.cc:361-376 | the table entry of an assigned variable is an assignment on the trail, of that variable |
| Trail.PushTrailOk | minisat/core/analysis/analyze_trace.cc:361-370 | `add_assignment` of an unassigned variable keeps the table and trail consistent |
| Trail.BacktrackTrailOk | minisat/core/analysis/analyze_trace.cc:403-414 | cutting the trail and checkpoints back to a level, and unassigning the variables of the cut suffix, keeps table and trail consistent |
| Trail.Unassign | minisat/core/analysis/analyze_trace.cc:409-411 | the unassignment loop removes exactly the variables of the trail suffix from the table |
| Trail.UndoneUnassigns | minisat/core/analysis/analyze_trace.cc:409-412 | under the table and trail invariant, dropping the table entries that point into the cut suffix unassigns exactly the variables of that suffix |
| Trail.FalsifiersSpec | minisat/core/analysis/analyze_trace.cc:297-308 | the capture succeeds exactly when every literal is falsified by the current assignment of its variable, and it then holds one assignment per literal |
| Trail.FalsifiersBound | minisat/core/analysis/analyze_trace.cc:302-304 | the captured assignments are objects of the arena |
| Remap.Store | minisat/core/analysis/analyze_trace.cc:378-386 | `clauses[id] = c` after growing the table with null slots: the slot holds c, others keep their old value or are null |
| Remap.RemappedLength | minisat/core/analysis/analyze_trace.cc:471-472 | every new id lands inside the rebuilt table, and the table ends at the largest new id |
| Remap.RemappedFilled | minisat/core/analysis/analyze_trace.cc:464-481 | a slot of the rebuilt table is filled exactly when some move targets it |
| Remap.RemappedLastWins | minisat/core/analysis/analyze_trace.cc:474 | the last move to a new id decides its entry, which is the old table's entry for the old id |
| Remap.RemappedFromOld | minisat/core/analysis/analyze_trace.cc:474 | every entry of the rebuilt table comes from the old table |
| CcAnalysis.ImplicationDepsSpec | minisat/core/analysis/analyze_trace.cc:222-236 | the Implication capture succeeds exactly when one literal is on the implied variable and every other literal is falsified, and then holds one assignment per other literal |
| CcAnalysis.UnitDeps | minisat/core/analysis/analyze_trace.cc:509 | a unit clause implies its literal with no dependencies |
| CcAnalysis.Analyzer.constructor | minisat/core/analysis/analyze_trace.cc:135-140 | empty tables and stacks, zero deletions |
| CcAnalysis.Analyzer.Allocate | minisat/core/analysis/analyze_trace.cc:31 | a new event is appended, required only if it is a Deletion or Reset, with an unset memo and no deletion time |
| CcAnalysis.Analyzer.AddAssignment | minisat/core/analysis/analyze_trace.cc:361-376 | the variable is mapped to the assignment, which is pushed on the trail and the event list |
| CcAnalysis.Analyzer.AddClause | minisat/core/analysis/analyze_trace.cc:378-393 | an id >= 0 stores the clause in its (empty) slot, growing the table; the clause is logged |
| CcAnalysis.Analyzer.NewDecisionLevel | minisat/core/analysis/analyze_trace.cc:399-401 | a checkpoint at the current end of the trail |
| CcAnalysis.Analyzer.BacktrackTo | minisat/core/analysis/analyze_trace.cc:403-414 | trail and checkpoints are cut back to the level (untouched at the current level) and exactly the variables of the cut suffix are unassigned |
| CcAnalysis.Analyzer.ImplicationDependencies | minisat/core/analysis/analyze_trace.cc:222-236 | the capture loop computes `ImplicationDeps` |
| CcAnalysis.Analyzer.LearnedDependencies | minisat/core/analysis/analyze_trace.cc:310-321 | the capture loop computes `Falsifiers` of the conflicting clause |
| CcAnalysis.Analyzer.SetRequired | minisat/core/analysis/analyze_trace.cc:60 | `set_required` leaves the marking `Mark` specifies |
| CcAnalysis.Analyzer.HandleRequired | minisat/core/analysis/analyze_trace.cc:323-335 | `handle_required` marks the antecedent and then each dependency, as `MarkAll` specifies |
| CcAnalysis.Analyzer.IsSkippable | minisat/core/analysis/analyze_trace.cc:256-280 | the answer is `Skippable`; memos already set are kept, and the memo of the asked implication or learned clause is set |
| CcAnalysis.Analyzer.Memoised | minisat/core/analysis/analyze_trace.cc:337-359 | the memoised answer is `Skippable`; every memo set agrees with `Skippable` |
| CcAnalysis.Analyzer.AnySkippable | minisat/core/analysis/analyze_trace.cc:349-356 | the loop answers whether some dependency is skippable |
| CcAnalysis.Analyzer.WriteOut | minisat/core/analysis/analyze_trace.cc:548-556 | one line per logged event, in order, flagged with its skippability and required flag, showing what `print` writes |
| CcAnalysis.Analyzer.Imply | minisat/core/analysis/analyze_trace.cc:212-238 | an implication succeeds exactly when the capture succeeds and the variable is unassigned; the implication is then appended, assigned, pushed and logged |
| CcAnalysis.Analyzer.AnalyzeImplication | minisat/core/analysis/analyze_trace.cc:453-462 | an `i` record succeeds exactly when the literal is not 0, the id is live and that clause can imply the literal; it then becomes the antecedent of the new implication |
| CcAnalysis.Analyzer.AnalyzeBranch | minisat/core/analysis/analyze_trace.cc:515-518 | a `b` record opens a level and succeeds exactly when the literal is not 0 and its variable is unassigned; the branch is then appended, assigned and logged |
| CcAnalysis.Analyzer.SetDeleted | minisat/core/analysis/analyze_trace.cc:177-179 | the clause gets the next deletion time, later than every other stamp |
| CcAnalysis.Analyzer.ClearSlot | minisat/core/analysis/analyze_trace.cc:187 | the slot is emptied |
| CcAnalysis.Analyzer.Delete | minisat/core/analysis/analyze_trace.cc:181-190 | a `d` record succeeds exactly when its id is live; the slot is cleared, the clause stamped, and a Deletion event appended and logged |
| CcAnalysis.Analyzer.AnalyzeClauseMovement | minisat/core/analysis/analyze_trace.cc:464-481 | an `m` block succeeds exactly when every old id is live and every new id valid, and the table becomes `Remapped` |
| CcAnalysis.Analyzer.ReadMoves | minisat/core/analysis/analyze_trace.cc:467-479 | the `m` pairs from the cursor up to the first record that is not a move, in order; at least one is read |
| CcAnalysis.Analyzer.AddOriginal | minisat/core/analysis/analyze_trace.cc:494-495 | the original clause is appended, stored under its id and logged |
| CcAnalysis.Analyzer.AnalyzeNumberedClause | minisat/core/analysis/analyze_trace.cc:490-496 | a numbered clause succeeds exactly when its slot is empty and it has at least two literals; it is then appended, stored under its id and logged |
| CcAnalysis.Analyzer.AnalyzeUnitClause | minisat/core/analysis/analyze_trace.cc:501-511 | an unnumbered clause is the empty clause exactly when it has no literals; with one literal on an unassigned variable it implies that literal; otherwise it fails |
| CcAnalysis.Analyzer.LearnEmpty | minisat/core/analysis/analyze_trace.cc:429-433 | level -1 learns the empty clause exactly when the capture on the conflicting clause succeeds; it is appended with those dependencies and logged, not stored, and nothing else changes |
| CcAnalysis.Analyzer.AddLearned | minisat/core/analysis/analyze_trace.cc:441-442 | the learned clause is created exactly when the capture on the conflicting clause succeeds and its slot is empty; it is then appended with those dependencies, stored and logged, and nothing else changes |
| CcAnalysis.Analyzer.Assert | minisat/core/analysis/analyze_trace.cc:444-448 | backtrack to the level; the asserting implication succeeds exactly when, in the table the backtrack leaves, the Implication capture on the clause succeeds and its first literal's variable is unassigned; it is then appended with those dependencies, assigned, pushed on the cut trail and logged |
| CcAnalysis.Analyzer.Learn | minisat/core/analysis/analyze_trace.cc:435-450 | succeeds exactly when the capture on the conflicting clause succeeds, the slot is empty, the level is between 0 and the decision level, the clause is not empty and after the backtrack it can imply its first literal; then both objects are appended, the clause stored, the stacks cut and the implication pushed, with every field stated |
| CcAnalysis.Analyzer.AnalyzeConflict | minisat/core/analysis/analyze_trace.cc:416-451 | a `k` record needs a live id; it reaches the empty clause exactly when the level is -1 and the capture succeeds; it goes on exactly when the next record is a clause without id or with a non-negative id that `Learn` can learn, and then does what `Learn` states |
| CcAnalysis.Analyzer.Finish | minisat/core/analysis/analyze_trace.cc:542-556 | after marking the empty clause, exactly the Deletions and what the empty clause reaches are required, the marking is closed, and one line per event is written |
| CcAnalysis.Analyzer.DispatchClause | minisat/core/analysis/analyze_trace.cc:489-511 | a clause record: unnumbered as `AnalyzeUnitClause`, numbered as `AnalyzeNumberedClause`; it ends the replay only when empty and unnumbered |
| CcAnalysis.Analyzer.DispatchConflict | minisat/core/analysis/analyze_trace.cc:519-521 | a `k` record, with the record after it, as `AnalyzeConflict`; it ends the replay only at level -1 |
| CcAnalysis.Analyzer.DispatchOther | minisat/core/analysis/analyze_trace.cc:512-538 | `i`, `b`, `d` and `m` records as their step members, `r` as a backtrack to level 0, a bare `0` fails; none ends the replay |
| CcAnalysis.Analyzer.Dispatch | minisat/core/analysis/analyze_trace.cc:488-540 | one replay step: the record at the cursor does what its step member states, consuming one record, two for a learning conflict and a whole `m` block; only an empty unnumbered clause or a level -1 conflict reaches the empty clause, and a step that goes on passed neither |
| CcAnalysis.Analyzer.Analyze | minisat/core/analysis/analyze_trace.cc:483-559 | `Exhausted` only when no record ends the replay and none is a bare `0`; `Complete` only when some record ends it; then the required events are exactly the Deletions and what the empty clause reaches, the marking is closed and the lines are those of the event list |
| PyAnalysis.OpposersSpec | minisat/core/analyze_trace.py:33-37 | the capture succeeds exactly when every literal is opposed by its variable's assignment, and then it is the table lookup of those variables |
| PyAnalysis.OpposersBound | minisat/core/analyze_trace.py:35-37 | the captured assignments are objects of the arena |
| PyAnalysis.ImplicationNeedsSpec | minisat/core/analyze_trace.py:29-37 | the Implication capture succeeds exactly when every literal on another variable is opposed, then holds their assignments in order; the number of literals on the implied variable is not checked |
| PyAnalysis.LearnedNeedsBound | minisat/core/analyze_trace.py:71-76 | the LearnedClause capture, when it succeeds, yields assignments that are on the trail |
| PyAnalysis.PyIndex | minisat/core/analyze_trace.py:114-117 | Python's `trail_lim[level]`: a valid index only for `-len <= level < len`, negative levels counting from the end |
| PyAnalysis.BranchIndicesSpec | minisat/core/analyze_trace.py:143-164 | `branch_list` holds exactly the branches, in increasing arena order, each once |
| PyAnalysis.NeededBranchLitsComplete | minisat/core/analyze_trace.py:181-182 | every needed listed branch's literal is written |
| PyAnalysis.NeededBranchLitsSound | minisat/core/analyze_trace.py:23-25 | every written literal is that of a needed listed branch |
| PyAnalysis.NeededBranchLitsNone | minisat/core/analyze_trace.py:181-182 | nothing is written when no listed branch is needed |
| PyAnalysis.TraceAnalyzer.constructor | minisat/core/analyze_trace.py:86-91 | empty dicts and lists |
| PyAnalysis.TraceAnalyzer.Allocate | minisat/core/analyze_trace.py:7-9 | a new object is appended, not needed |
| PyAnalysis.TraceAnalyzer.AddAssignment | minisat/core/analyze_trace.py:99-102 | the variable is mapped to the assignment, which is pushed on the trail |
| PyAnalysis.TraceAnalyzer.AddClause | minisat/core/analyze_trace.py:104-108 | with an id the clause is registered, which needs the id to be new; without one nothing happens |
| PyAnalysis.TraceAnalyzer.NewDecisionLevel | minisat/core/analyze_trace.py:110-111 | a checkpoint at the current end of the trail |
| PyAnalysis.TraceAnalyzer.BacktrackTo | minisat/core/analyze_trace.py:113-117 | succeeds exactly when `trail_lim[level]` exists; trail and checkpoints are cut at that index and exactly the variables of the cut suffix unassigned; on failure nothing changes |
| PyAnalysis.TraceAnalyzer.ImplicationDependencies | minisat/core/analyze_trace.py:32-37 | the capture loop computes `ImplicationNeeds` |
| PyAnalysis.TraceAnalyzer.LearnedDependencies | minisat/core/analyze_trace.py:73-76 | the capture loop computes `LearnedNeeds` |
| PyAnalysis.TraceAnalyzer.SetNeeded | minisat/core/analyze_trace.py:14-17 | `needed` leaves the marking `Mark` specifies |
| PyAnalysis.TraceAnalyzer.PassOn | minisat/core/analyze_trace.py:38-44 | the antecedent and then each captured assignment are marked, as `MarkAll` specifies |
| PyAnalysis.TraceAnalyzer.Imply | minisat/core/analyze_trace.py:155-158 | an implication succeeds exactly when the capture succeeds and the variable is unassigned; it is then appended, assigned and pushed |
| PyAnalysis.TraceAnalyzer.AnalyzeImplication | minisat/core/analyze_trace.py:153-158 | an `i` line succeeds exactly when the antecedent id is registered and that clause can imply the literal; the branch list is unchanged |
| PyAnalysis.TraceAnalyzer.AnalyzeBranch | minisat/core/analyze_trace.py:159-164 | a `b` line opens a level and succeeds exactly when the variable is unassigned; the branch is then appended, assigned and pushed, and returned for the branch list |
| PyAnalysis.TraceAnalyzer.Delete | minisat/core/analyze_trace.py:170-172 | a `d` line succeeds exactly when the id is registered; it is removed and nothing else changes |
| PyAnalysis.TraceAnalyzer.AddOriginal | minisat/core/analyze_trace.py:146-150 | a header line appends the original clause and registers it under its id, which must be new |
| PyAnalysis.HeaderReadStep | minisat/core/analyze_trace.py:146-150 | one more header line with a new id appends its clause and registers the id to that line, keeping the header relation |
| PyAnalysis.TraceAnalyzer.LearnEmpty | minisat/core/analyze_trace.py:124-127 | the empty clause is learned exactly when every variable of the conflicting clause is assigned; it is appended but not registered, and afterwards exactly what it reaches is needed and the marking is closed |
| PyAnalysis.TraceAnalyzer.AddLearned | minisat/core/analyze_trace.py:131-132 | the learned clause is created exactly when every variable of the conflicting clause is assigned and its id is new; it is then appended and registered, and nothing else changes |
| PyAnalysis.TraceAnalyzer.Assert | minisat/core/analyze_trace.py:134-138 | backtrack to `trail_lim[level]`, then imply the clause's first literal: succeeds exactly when that index exists, the clause is not empty, and in the table the cut leaves every literal on another variable is opposed and the first literal's variable is unassigned; the implication with those assignments is then appended and pushed |
| PyAnalysis.TraceAnalyzer.Learn | minisat/core/analyze_trace.py:129-140 | succeeds exactly when every variable of the conflicting clause is assigned, the id is new, `trail_lim[level]` exists, the clause is not empty and after the cut it can imply its first literal; then both objects are appended, the clause registered, the stacks cut and the implication pushed |
| PyAnalysis.TraceAnalyzer.AnalyzeConflict | minisat/core/analyze_trace.py:119-140 | a `k` line needs a registered id; a following `0` learns the empty clause exactly when every variable of the conflicting clause is assigned; otherwise it goes on exactly when the next line is a clause that `Learn` can learn, and then does what `Learn` states |
| PyAnalysis.TraceAnalyzer.Dispatch | minisat/core/analyze_trace.py:152-179 | one pass of the main loop: the line at the cursor does what its step member states, a conflict also consuming the next line; the pass fails exactly when `Fails` holds for that line in the state before it (any line other than `i`, `b`, `k` and `d` always fails); it goes on exactly when `Next` is defined there, and then the new cursor and state are those `Next` gives; a branch line and only a branch line extends the branch list; the empty clause is learned only at a `k` line followed by `0`, as the one new object `EmptyLearnedIn`, and then exactly what it reaches is needed |
| PyAnalysis.TraceAnalyzer.DispatchConflict | minisat/core/analyze_trace.py:165-169 | a `k` line, with the line after it, as `AnalyzeConflict`; it fails exactly when `Fails` holds for it, goes on exactly as `Next` states, and learns the empty clause only when the next line is `0`, appending `EmptyLearnedIn` |
| PyAnalysis.TraceAnalyzer.DispatchOther | minisat/core/analyze_trace.py:153-164 | `i`, `b` and `d` lines as their step members and any other line as a failure, one line each; it fails exactly when `Fails` holds for the line, and otherwise leaves the state `Next` gives |
| PyAnalysis.TraceAnalyzer.ReadHeader | minisat/core/analyze_trace.py:145-150 | the header lines, up to the first that is not a clause, are appended in order and each id registered to the line that gave it, leaving the state `Started` describes; it fails exactly on a line whose id an earlier line gave |
| PyAnalysis.Next | minisat/core/analyze_trace.py:152-179 | one pass of the main loop on `State` values: a line that passes without learning the empty clause moves the cursor forward, by two for a `k` line, and is not one `Fails` holds for |
| PyAnalysis.ReplaysStep | minisat/core/analyze_trace.py:152-179 | a run that reaches a line goes on by that line's step |
| PyAnalysis.ReplaysFunctional | minisat/core/analyze_trace.py:152-179 | a run reaches each line in one state only, so the state is a function of the lines replayed |
| PyAnalysis.StartedUnique | minisat/core/analyze_trace.py:145-150 | the header lines fix where the main loop starts and its starting state |
| PyAnalysis.TraceAnalyzer.Replay | minisat/core/analyze_trace.py:152-179 | the main loop from the cursor, tied to the run `Replays` from the starting state: without an empty clause every line passes and the final state is the one the run reaches at the end, with no `0` line; with one, the run reaches a `k` line followed by the first `0` line and the arena is that state's plus the empty clause, exactly whose reach is needed; a failed replay names the line where the run stops and the state the run reaches it in, and `Fails` holds there; the branches returned are those of the arena |
| PyAnalysis.TraceAnalyzer.Analyze | minisat/core/analyze_trace.py:142-182 | the written literals are those of the needed branches in branch order; without an empty clause the final state is the one the run from the header state reaches at the end of the trace (`RunsThrough`), nothing is needed and nothing is written; with one, the run reaches a `k` line followed by the first `0` line and the arena is that state's plus the empty clause (`ProvesAt`), exactly whose reach is needed; `Crashed` only when a header line repeats an earlier id or the run from the header state reaches a line that raises there (`CrashesAt`) |
| PyAnalysis.TraceAnalyzer.WriteBranches | minisat/core/analyze_trace.py:181-182 | the output loop writes `NeededBranchLits` |

## Left out

- Parsing and I/O. The model takes the trace as parsed records and does not
  model reading the files, `in >> ws`, `peek`, `ignore`, `split` or `int()`.
  A text that does not parse has no record sequence.
- Output text. Each C++ output line is an `OutLine` value, not characters. The
  Python output is the list of written literals.
- The console progress messages, the `DEBUG_EXTRA` and `--debug` printing,
  `get_assignments_lits` (used only for debug printing), and `main` with its
  argument handling.
- MiniSat's `Lit` encoding. Literals are signed integers: the variable is the
  absolute value and the sign is negativity.
- Memory. Pointers are arena indices. Nothing is freed, as in the source.
- The C++ `Reset` class. The source never creates one; `r` only backtracks.
- C++ undefined behaviour. The model makes the step fail in each case:
  - an unchecked `clauses[conflicting_id]` out of range;
  - `get_lits()[0]` of an empty learned clause;
  - a learned-clause capture reading a missing or null assignment;
  - a negative `m` id read into `unsigned`.
- A backtrack level below -1 in C++ is converted to a large `unsigned`, which
  is well defined; `backtrack_to`'s `assert(level <= decision_level())`
  (analyze_trace.cc:404) then aborts. The model's step fails there.
- A C++ `k` record at a level of 0 or more followed by a record that is not a
  clause (for example `i 5 3`). The source finds no digit, `in.ignore(1, ':')`
  swallows the tag letter, and `LearnedClause(in, …)` reads the rest as the
  learned clause until the next tag letter makes `>>` fail
  (analyze_trace.cc:435-441). An assert then aborts, or the failed stream
  takes the end-of-file exit (analyze_trace.cc:531-533). The model makes the
  step fail (`Malformed`) instead.
- C++ `assert`s are modelled as enabled; with `NDEBUG` the source would go on
  with inconsistent state. The end-of-file exit is the `Exhausted` outcome.
- The C++ constructor `LearnedClause(ClauseAddition&)`
  (minisat/core/analysis/analyze_trace.cc:310) leaves `skippable` without an
  initial value. The model starts it at UNKNOWN, as the other constructor does.
- A bare `0` record outside a conflict. The C++ analyser reads it as clause
  id 0 and takes its literals from what follows
  (minisat/core/analysis/analyze_trace.cc:490-496); where the record ends the
  clause, the clause is empty and `assert(size > 1)` fails. The model makes
  the step fail. A clause record with a negative id starts with `-`, which the
  C++ analyser rejects as an unknown command (analyze_trace.cc:535-537); the
  model makes that step fail too.
- Literal 0 inside a record. The solver never writes one, and the C++ parse
  stops at the first 0 (analyze_trace.cc:157-162); the Python parse drops only
  the last token (analyze_trace.py:148). A well-formed record has only
  non-zero literals. The model does not restate this, so it also accepts
  records that hold 0 (for example a numbered clause `[1, 0, 2]`).
- Integer widths. Literals, variables and ids are unbounded integers.
  - An `unsigned` clause id of 2^31 or more is passed to `add_clause`'s `int`
    parameter (analyze_trace.cc:491-495, 378), turns negative, and is logged
    but never stored. The model stores every id it reads.
- Python sign checks. The Python LearnedClause capture does no sign check, and
  the Python Implication capture does not count literals on the implied
  variable. These are modelled as the code has them.
- The state after a failed step is not specified. The source aborts there
  (`assert`, `exit`, or an uncaught exception).
- CcAnalysis.Analyzer.SetDeleted: does not model the wrap of the `unsigned`
  `deletion_count` (analyze_trace.cc:140, 178). After 2^31 deletions the
  `int` `deletion_time` turns negative and is no longer printed
  (analyze_trace.cc:172). "Later than every other stamp" holds only below
  that count.
- CcAnalysis.Analyzer.Analyze: ties the outcome to the records only through
  the records that end the replay. It does not state the final arena as a
  function of the whole trace, or which record makes a trace `Malformed`;
  `RecordStep` states each step's effect. The `Exhausted` and `Malformed`
  outcomes state nothing about the state.
