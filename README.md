# D experimental features: a verified model

This project models the pass in libdtrace that compiles the experimental D
features into plain D. It covers:

- structured `if`/`else`;
- bounded `while<N>` loops;
- `entry->` captures in `:return` clauses;
- `callers["..."]` recursion counters.

One "super-clause" goes in. An ordered list of plain sub-clauses comes out.
The list holds:

- condition clauses that set `this->_XD_condition_<id>`;
- basic blocks guarded by those conditions and by `!self->_XD_error`;
- a `:entry` clause that captures values, a priming clause for condition 1, and a `:return` clause that releases the captures;
- `++`/`--` clauses for each `callers[]` counter;
- a clause that clears the error flag;
- the `dtrace:::ERROR` handler, once per handle.

## Modules

- **Syntax**: the parse-tree slice the pass reads and builds.
  - Nodes, probe descriptions and clauses.
  - Probe descriptions parsed from their `provider:mod:func:name` text.
  - The comma split that `strsep` performs on a `callers[]` string.
- **Names**: the `entryvars` registry and the lookup over it.
  - The decimal names `_XD_condition_<id>`, `_XD_callers_<id>` and `_XD_entry_<field>_<group>`.
  - Proofs that these names never collide.
- **Clauses**: the clauses the pass synthesises.
  - The entry-capture and entry-release clauses, with the loops over the registry that build them.
- **Tree**: the children of each node kind, in the order `xd_visit_all` visits them, and how a node is rebuilt from new children.
- **Rewrite** / **RewriteProps**: `xd_visit_all` and its three recognisers, as functions over the state they thread (`WalkState`).
  - The walk may change that state only as the predicate `Evolves` allows. `Evolves` requires that:
    - each `callers[]` string adds one counter, one increment clause and one queued decrement clause;
    - the capture group moves by one exactly on the first `entry->` use;
    - flags are only ever set;
    - nothing entry-related changes outside an all-`:return` clause.
- **ControlFlow** / **ControlFlowProps**: `xd_visit_stmts`, `xd_do_if`, `xd_do_while` and `xd_new_basic_block`.
  - They are written as a list of steps: a block under a condition, or a condition set from a value. The steps are then realised as clauses.
  - Proved about them:
    - condition ids are dense and each is set before it is read;
    - every maximal run of plain statements becomes one block, with statement order kept;
    - only the first clause may be unguarded;
    - a `while<N>` segment is repeated max(1, N) times (once when N ≤ 1).
- **Assembly** / **AssemblyProps**: `dt_compile_experimental` as a function.
  - It covers the exact order of the result, the handle counters, and a whole script compiled in turn.
- **Experimental**: the compiler as the C code runs it.
  - `Handle` holds `dt_xd_num_entrys`, `dt_xd_num_callers` and `dt_experimental`.
  - `Parser` is `xd_parse_t`. Its clause list, counters and flags are fields, and `xp_entryvars[]` is an array.
  - The methods update these in place. They walk lists and unroll loops with `while` loops.
  - Each method is proved to leave exactly the state that the functions of Rewrite, ControlFlow and Assembly describe.

The model follows the code wherever it and the source's own comments differ:

- **Clause order.** The code prepends each `callers[]` increment as it is found, so the latest one comes first, and it appends the queued decrements (`xp_append_clauses`, dt_experimental.c:1099) before it appends the release clause (dt_experimental.c:1106). The resulting order is: error handler, capture, clear-error, priming, increments (latest first), body, decrements, release. The comment at dt_experimental.c:594-597 says instead that the `:return` decrement clause goes at the very end of the clause list, after any other clauses; the release clause in fact follows it.
- **Priming clause.** The comment on `xd_new_condition1_clause` (dt_experimental.c:413-422) shows it guarded by the timestamp slot. The code builds a condition clause guarded by `!self->_XD_error` that sets condition 1 to `1 && <timestamp slot>`. The model builds what the code builds.

## Model

| member | source | states |
|---|---|---|
| Syntax.CutLast | usr/src/lib/libdtrace/common/dt_experimental.c:366-372 | cutting a description text at its last colon gives a colon-free last field, and the rest joined back with ":" is the text |
| Syntax.CutLastJoin | usr/src/lib/libdtrace/common/dt_experimental.c:366-372 | the last-colon cut of `x:y` gives back `x` and `y` when `y` has no colon |
| Syntax.DescRoundTrip | usr/src/lib/libdtrace/common/dt_experimental.c:366-372 | the text `provider:mod:func:name` parses back to the same four fields when mod, func and name hold no colon |
| Syntax.NameOfSuffix | usr/src/lib/libdtrace/common/dt_experimental.c:641-647 | a description built as `<token>:entry` (or `:return`) has probe name `entry` (or `return`) whatever the token |
| Syntax.SplitFrom | usr/src/lib/libdtrace/common/dt_experimental.c:640-648 | splitting at commas always yields at least one token |
| Syntax.SplitFromStep | usr/src/lib/libdtrace/common/dt_experimental.c:640-648 | one character of the strsep scan: a comma closes the current token, any other character extends it |
| Syntax.SplitFromJoin | usr/src/lib/libdtrace/common/dt_experimental.c:640-648 | the tokens rejoined with commas give back the input; there is one token more than there are commas; no token contains a comma |
| Syntax.SplitJoin | usr/src/lib/libdtrace/common/dt_experimental.c:640-648 | the strsep split of a `callers[]` string loses nothing: rejoining gives the string, the token count is commas + 1, tokens are comma-free |
| Names.RegistryShape | usr/src/lib/libdtrace/common/dt_experimental.c:76-153 | the registry has one row per enum value; the elapsed rows are exactly ELAPSED_NS..ELAPSED_SEC; the args rows are exactly ARGS0..ARGS9, with row ARGS0+N numbered N; the last row is the plain `timestamp` |
| Names.FindEntryVar | usr/src/lib/libdtrace/common/dt_experimental.c:491-495 | the lookup loop returns the first row whose name matches, or ENTRYVAR_NUM when no row matches |
| Names.NatToString | usr/src/lib/libdtrace/common/dt_experimental.c:217 | the `%d`/`%u` spelling of a number is a non-empty string of decimal digits |
| Names.NatToStringRoundTrip | usr/src/lib/libdtrace/common/dt_experimental.c:217 | reading the decimal spelling back gives the number |
| Names.NatToStringInjective | usr/src/lib/libdtrace/common/dt_experimental.c:217 | different numbers have different decimal spellings |
| Names.RegistryNamesDistinct | usr/src/lib/libdtrace/common/dt_experimental.c:117-153 | no two registry rows share a field name |
| Names.RegistryIndexed | usr/src/lib/libdtrace/common/dt_experimental.c:117-153 | each row's name picks out that row |
| Names.FindRegistryName | usr/src/lib/libdtrace/common/dt_experimental.c:491-495 | the lookup finds every row by its own name |
| Names.ArgsNotAField | usr/src/lib/libdtrace/common/dt_experimental.c:491-497 | `args` is not a registry field, so a bare `entry->args` is left to the args recogniser |
| Names.LastIndexOfJoin | usr/src/lib/libdtrace/common/dt_experimental.c:303-304 | in `x_d` with `d` free of `_`, the last underscore is the one after `x` |
| Names.SplitAtLastUnderscore | usr/src/lib/libdtrace/common/dt_experimental.c:303-304 | two names `x_d` and `y_e` with underscore-free tails are equal only if `x == y` and `d == e` |
| Names.EntryVarNameInjective | usr/src/lib/libdtrace/common/dt_experimental.c:298-305 | `_XD_entry_<field>_<group>` determines both the field and the group |
| Names.NumberedNamesInjective | usr/src/lib/libdtrace/common/dt_experimental.c:209-220 | distinct ids give distinct `_XD_condition_<id>` names and distinct `_XD_callers_<id>` names |
| Names.RolesDisjoint | usr/src/lib/libdtrace/common/dt_experimental.c:168-169 | the error, condition, callers and entry variable names never coincide |
| Names.ConditionVar | usr/src/lib/libdtrace/common/dt_experimental.c:209-220 | condition 0 has no variable node; any other id gives a `this->` variable |
| Names.VariablesDistinct | usr/src/lib/libdtrace/common/dt_experimental.c:298-312 | distinct (field, group) pairs give distinct capture slots; distinct ids give distinct condition and counter variables |
| Clauses.BasicBlockGuard | usr/src/lib/libdtrace/common/dt_experimental.c:943-962 | a basic block goes unguarded exactly when it runs under condition 0 and no condition has been allocated yet |
| Clauses.CallersDescs | usr/src/lib/libdtrace/common/dt_experimental.c:640-648 | a `callers[]` string yields one `:entry` and one `:return` description per comma-separated token (commas + 1 of each); a colon-free token `f` gives the description `::f:entry` |
| Clauses.CapturedBelow | usr/src/lib/libdtrace/common/dt_experimental.c:346-351 | the captured fields are listed in increasing enum order: exactly the flagged fields that are not elapsed_* |
| Clauses.FlaggedBelow | usr/src/lib/libdtrace/common/dt_experimental.c:399-403 | the released fields are listed in increasing enum order: exactly the flagged fields |
| Clauses.NewEntryClause | usr/src/lib/libdtrace/common/dt_experimental.c:338-376 | the two loops of xd_new_entry_clause build exactly EntryClause: one capture per captured field, one `:entry` description per probe |
| Clauses.NewReturnClause | usr/src/lib/libdtrace/common/dt_experimental.c:393-411 | the loop of xd_new_return_clause builds exactly ReturnClause |
| Clauses.EntryClauseCaptures | usr/src/lib/libdtrace/common/dt_experimental.c:338-363 | the entry clause is unguarded. It assigns, in enum order, exactly the flagged non-elapsed fields, from their source values. With the timestamp flagged, its last assignment is `timestamp` into the timestamp slot |
| Clauses.EntryClauseProbes | usr/src/lib/libdtrace/common/dt_experimental.c:364-373 | the entry clause probes the same provider, module and function as each `:return` description, named `entry` |
| Clauses.ReturnClauseReleases | usr/src/lib/libdtrace/common/dt_experimental.c:393-411 | the release clause uses the original descriptions and has no guard. It zeroes exactly the flagged slots, in enum order |
| Tree.Size | usr/src/lib/libdtrace/common/dt_experimental.c:671-792 | every node has a positive size |
| Tree.Children | usr/src/lib/libdtrace/common/dt_experimental.c:689-781 | the children xd_visit_all visits together are smaller than the node, so the walk terminates |
| Tree.OptList | usr/src/lib/libdtrace/common/dt_experimental.c:730-731 | an optional child contributes one child when present and none when absent |
| Tree.ChildrenSmaller | usr/src/lib/libdtrace/common/dt_experimental.c:689-781 | for each node kind, the operands visited by its case of the switch are smaller than the node |
| Tree.RebuildChildren | usr/src/lib/libdtrace/common/dt_experimental.c:689-781 | putting a node's own children back gives the node back |
| Tree.ChildrenRebuild | usr/src/lib/libdtrace/common/dt_experimental.c:689-781 | a node rebuilt from new children has exactly those children and keeps its kind (if, while, unknown) |
| Rewrite.EntryVarField | usr/src/lib/libdtrace/common/dt_experimental.c:482-497 | the recogniser fires only on `entry-><name>` with a registry name and returns that row; on `entry-><ident>` it declines exactly when no row has that name |
| Rewrite.ArgsIndex | usr/src/lib/libdtrace/common/dt_experimental.c:551-565 | a node is recognised exactly when it is `entry->args[N]` with N an integer literal of at most 9, and then the result is N |
| Rewrite.VisitSeq | usr/src/lib/libdtrace/common/dt_experimental.c:692-693 | a successful walk over a sibling list returns one node per sibling |
| Rewrite.VisitClause | usr/src/lib/libdtrace/common/dt_experimental.c:729-738 | a successful walk keeps the probe descriptions, whether there is a guard, and the number of actions |
| RewriteProps.RecognizeCases | usr/src/lib/libdtrace/common/dt_experimental.c:682-684 | in one visit at most one recogniser rewrites the node: entry field, else entry args (both only in an all-`:return` clause), else callers. A rewrite always changes the node. Otherwise node and state are untouched |
| RewriteProps.IncrementsAppend | usr/src/lib/libdtrace/common/dt_experimental.c:650-653 | the increment clauses of later `callers[]` uses end up in front of earlier ones, because each is prepended |
| RewriteProps.DecrementsAppend | usr/src/lib/libdtrace/common/dt_experimental.c:656-661 | the decrement clauses are queued in first-use order |
| RewriteProps.EvolvesTrans | usr/src/lib/libdtrace/common/dt_experimental.c:671-792 | two permitted state changes in a row make one permitted change, the `callers[]` strings concatenated |
| RewriteProps.MarkEvolves | usr/src/lib/libdtrace/common/dt_experimental.c:438-454 | marking a field after the first-use bump is a permitted change: the group moves only on the first use, the field and the timestamp are flagged, and the bookkeeping invariant holds |
| RewriteProps.CallersEvolves | usr/src/lib/libdtrace/common/dt_experimental.c:610-662 | each `callers[]` rewrite adds one counter, prepends one increment clause and queues one decrement clause |
| RewriteProps.RecognizeEvolves | usr/src/lib/libdtrace/common/dt_experimental.c:682-684 | a rewriting recogniser changes the state only as permitted |
| RewriteProps.VisitAllEvolves | usr/src/lib/libdtrace/common/dt_experimental.c:671-792 | a successful walk of a subtree changes the state only as permitted, for the `callers[]` strings in the subtree in visiting order |
| RewriteProps.DescendEvolves | usr/src/lib/libdtrace/common/dt_experimental.c:686-791 | the switch of xd_visit_all (if/while counts, then the children) changes the state only as permitted |
| RewriteProps.VisitSeqEvolves | usr/src/lib/libdtrace/common/dt_experimental.c:692-693 | walking a sibling list changes the state only as permitted |
| RewriteProps.PlainVisit | usr/src/lib/libdtrace/common/dt_experimental.c:671-792 | a subtree with nothing to rewrite, no if/while and no unknown kind comes back unchanged, and the state is untouched |
| RewriteProps.PlainSeqVisit | usr/src/lib/libdtrace/common/dt_experimental.c:692-693 | the same for a list of such subtrees |
| RewriteProps.ReplacementInert | usr/src/lib/libdtrace/common/dt_experimental.c:441-447 | descending into a replacement (capture slot, elapsed expression or counter) changes neither it nor the state, so skipping that descent loses nothing |
| RewriteProps.EntryFieldRewrite | usr/src/lib/libdtrace/common/dt_experimental.c:475-528 | in an all-`:return` clause, `entry-><field>` becomes the slot of the current group (or `(timestamp - slot) / xe_num` for elapsed_*). The group moves on the first use only. Exactly the field (timestamp for elapsed_*) and the timestamp are flagged. Nothing else changes |
| RewriteProps.EntryOutsideReturn | usr/src/lib/libdtrace/common/dt_experimental.c:480-481 | outside an all-`:return` clause, `entry-><name>` is left alone and the state is untouched |
| RewriteProps.ArgsRewrite | usr/src/lib/libdtrace/common/dt_experimental.c:544-573 | in an all-`:return` clause, `entry->args[N]` with N at most 9 becomes the `args<N>` slot of the current group. Slot args<N> and the timestamp are flagged, the clause needs its entry clause, and the clause lists and callers count are untouched |
| RewriteProps.ArgsNeedsInteger | usr/src/lib/libdtrace/common/dt_experimental.c:563-565 | `entry->args[k]` whose index `k` is not an integer literal is left unchanged, with no error and no state change |
| RewriteProps.ArgsTooLarge | usr/src/lib/libdtrace/common/dt_experimental.c:563-565 | `entry->args[N]` with N above 9 is left unchanged, with no error and no state change |
| RewriteProps.CallersNeedsString | usr/src/lib/libdtrace/common/dt_experimental.c:626-627 | `callers[k]` with a key that is not a string literal is left unchanged, with no counter and no clause |
| ControlFlow.Iterations | usr/src/lib/libdtrace/common/dt_experimental.c:928-929 | the loop segment appears once when the bound is at most 1 and `dn_max_iter` times otherwise |
| ControlFlowProps.StmtsAllocs | usr/src/lib/libdtrace/common/dt_experimental.c:969-1015 | the conditions a statement list allocates are its own count (one per if, two per if/else, one per while, plus nested ones) |
| ControlFlowProps.ControlAllocs | usr/src/lib/libdtrace/common/dt_experimental.c:816-930 | the same for one if or while statement |
| ControlFlowProps.StmtsDensity | usr/src/lib/libdtrace/common/dt_experimental.c:279-285 | the condition ids a statement list defines are exactly the ids after the starting count, up to the final count, with none skipped or reused |
| ControlFlowProps.ControlDensity | usr/src/lib/libdtrace/common/dt_experimental.c:279-285 | the same for one if or while statement |
| ControlFlowProps.RepeatDefined | usr/src/lib/libdtrace/common/dt_experimental.c:928-929 | unrolling defines no new ids: the copies define what the segment defines |
| ControlFlowProps.RepeatClosed | usr/src/lib/libdtrace/common/dt_experimental.c:928-929 | copies of a segment whose conditions are set before they are read keep that property |
| ControlFlowProps.StmtsClosed | usr/src/lib/libdtrace/common/dt_experimental.c:242-271 | every condition a generated clause reads is the enclosing one or was set by an earlier clause |
| ControlFlowProps.ControlClosed | usr/src/lib/libdtrace/common/dt_experimental.c:816-930 | the same for one if or while statement |
| ControlFlowProps.RepeatMembers | usr/src/lib/libdtrace/common/dt_experimental.c:846-854 | copying a segment produces only clauses of the segment |
| ControlFlowProps.ControlBlocks | usr/src/lib/libdtrace/common/dt_experimental.c:816-930 | inside an if or while, every block is non-empty and guarded by a condition the statement allocated |
| ControlFlowProps.StmtsBlocks | usr/src/lib/libdtrace/common/dt_experimental.c:943-1015 | every block is non-empty, runs under the enclosing or a new condition, and after the first clause a block under the enclosing condition sees some condition allocated |
| ControlFlowProps.OnlyFirstUnguarded | usr/src/lib/libdtrace/common/dt_experimental.c:943-962 | only the first clause of a body can be unguarded |
| ControlFlowProps.StmtsLevel | usr/src/lib/libdtrace/common/dt_experimental.c:969-1015 | the blocks at the enclosing level hold exactly the list's plain statements in their order, one block per maximal run, with no empty or trailing empty block |
| ControlFlowProps.RealizeRepeat | usr/src/lib/libdtrace/common/dt_experimental.c:846-854 | realising copies of steps is copying the realised clauses |
| ControlFlowProps.WhileRealized | usr/src/lib/libdtrace/common/dt_experimental.c:891-930 | a while gives the clause that sets `notdone` to `cond_pre && 1`, then the segment (test clause that keeps `notdone`, then the body) repeated Iterations(N) times. It allocates one id plus the body's |
| ControlFlowProps.RepeatSnoc | usr/src/lib/libdtrace/common/dt_experimental.c:928-929 | one more copy of the segment at the end is one more iteration |
| ControlFlowProps.RepeatShape | usr/src/lib/libdtrace/common/dt_experimental.c:928-929 | k copies have k times the segment's length, start with the segment, and repeat with the segment's period |
| ControlFlowProps.WhileUnroll | usr/src/lib/libdtrace/common/dt_experimental.c:891-930 | a while allocates exactly one new id (`notdone`), seeded from the enclosing condition and `1`. The test step reuses that id. The segment repeats back to back, its length times the iteration count |
| ControlFlowProps.IfElseIds | usr/src/lib/libdtrace/common/dt_experimental.c:816-839 | an if allocates id c, set from the enclosing condition and the test, and visits the body under c. An else allocates a further id set from the enclosing condition and `!c` and visits the else-body under it. Without an else nothing follows the body |
| ControlFlowProps.OneBlock | usr/src/lib/libdtrace/common/dt_experimental.c:1012-1014 | one plain statement is one block and allocates nothing |
| ControlFlowProps.ExampleIf | usr/src/lib/libdtrace/common/dt_experimental.c:969-1015 | `a; if (x) { b } c;` gives block a, set condition 1 from x, block b under 1, and block c under 0 (which now gets the `!error` guard) |
| ControlFlowProps.ExampleIfElse | usr/src/lib/libdtrace/common/dt_experimental.c:816-839 | `if (x) { a } else { b }` gives: set 1 from x, a under 1, set 2 from `!1`, b under 2 |
| ControlFlowProps.ExampleWhile | usr/src/lib/libdtrace/common/dt_experimental.c:891-930 | `while<3> (t) { a }` gives: seed condition 1, then (test, a) three times |
| Assembly.Fresh | usr/src/lib/libdtrace/common/dt_experimental.c:1045-1049 | the zeroed parse state keeps the bookkeeping invariant and needs no entry clause |
| Assembly.Compile | usr/src/lib/libdtrace/common/dt_experimental.c:1042-1114 | `dt_experimental` is set after the call exactly when it was set before or the result has two or more clauses. A rejected clause yields no clauses. When this call sets the flag, the ERROR handler heads a result of at least three clauses |
| AssemblyProps.WalkEvolves | usr/src/lib/libdtrace/common/dt_experimental.c:1060-1066 | after a successful walk from a fresh state, the clause list holds exactly the increments of the clause's `callers[]` strings and the queue holds the decrements. There is one counter per string. The group moves by one exactly when an entry clause is needed, which only an all-`:return` clause can need |
| AssemblyProps.WalkFacts | usr/src/lib/libdtrace/common/dt_experimental.c:1068-1078 | when an entry clause is needed, every probe is a `:return` probe and the timestamp is flagged, as the assertions in the entry and return clause builders require |
| AssemblyProps.CompileSession | usr/src/lib/libdtrace/common/dt_experimental.c:1042-1114 | `dt_experimental` is never cleared; `dt_xd_num_callers` grows by the number of `callers[]` strings; `dt_xd_num_entrys` grows by at most one, and not at all unless every probe is `:return` |
| AssemblyProps.AssembleShape | usr/src/lib/libdtrace/common/dt_experimental.c:1099-1107 | the prepends and appends produce: entry, clear-error, priming, increments, body, decrements, release, each present under its own condition |
| AssemblyProps.ConditionsAllocated | usr/src/lib/libdtrace/common/dt_experimental.c:1081-1103 | some condition is allocated exactly when condition 1 is reserved or the body defines one |
| AssemblyProps.CompileOrder | usr/src/lib/libdtrace/common/dt_experimental.c:1081-1113 | the full order: ERROR handler (first multi-clause result of the handle), entry clause, clear-error exactly when some condition was allocated, priming, increments latest first, body, decrements, release |
| AssemblyProps.BodyDensity | usr/src/lib/libdtrace/common/dt_experimental.c:1092-1097 | the original guard becomes the first condition, before the body; the body's ids are dense from there, and each is set before it is read |
| AssemblyProps.ConditionOneReserved | usr/src/lib/libdtrace/common/dt_experimental.c:1068-1078 | with `entry->` in use, the body is split, every id it defines is 2 or more, and condition 1 is set only by the priming clause, from this group's timestamp slot |
| AssemblyProps.PassThrough | usr/src/lib/libdtrace/common/dt_experimental.c:1081-1091 | a clause with nothing to rewrite and no if/while comes out as itself, alone, with guard intact and the handle untouched |
| AssemblyProps.ErrorClauseShape | usr/src/lib/libdtrace/common/dt_experimental.c:1025-1035 | the handler probes `dtrace:::ERROR`, is unguarded, and sets the error flag to 1 |
| AssemblyProps.ErrorAtMostOnce | usr/src/lib/libdtrace/common/dt_experimental.c:1108-1112 | over a whole script the handler is emitted at most once per handle, never once the handle has one, and the flag stays set once it is set |
| AssemblyProps.GroupsDistinct | usr/src/lib/libdtrace/common/dt_experimental.c:505-506 | two super-clauses compiled in turn that both use `entry->` get different, increasing capture groups |
| Experimental.GlueStep | usr/src/lib/libdtrace/common/dt_experimental.c:692-693 | one step of the sibling loop: a failure ends the walk, a success moves one node into the result |
| Experimental.Parser.constructor | usr/src/lib/libdtrace/common/dt_experimental.c:1045-1049 | the zeroed xd_parse_t over the handle: no clauses, no counts, no flags |
| Experimental.Parser.AppendClause | usr/src/lib/libdtrace/common/dt_experimental.c:191-194 | the clauses go after the list; nothing else changes |
| Experimental.Parser.PrependClause | usr/src/lib/libdtrace/common/dt_experimental.c:200-203 | the clauses go before the list; nothing else changes |
| Experimental.Parser.NewCondition | usr/src/lib/libdtrace/common/dt_experimental.c:279-285 | the count goes up by one, the new count is the id returned, and the clause setting it from the enclosing condition and the predicate is appended |
| Experimental.Parser.Mark | usr/src/lib/libdtrace/common/dt_experimental.c:450-453 | need-entry, the field and the timestamp are flagged |
| Experimental.Parser.DoEntryVar | usr/src/lib/libdtrace/common/dt_experimental.c:475-528 | the node and the new state are those of Rewrite.DoEntryVar; the error flag and condition count are untouched |
| Experimental.Parser.DoEntryVarArgs | usr/src/lib/libdtrace/common/dt_experimental.c:544-573 | the node and the new state are those of Rewrite.DoEntryVarArgs |
| Experimental.Parser.DoCallers | usr/src/lib/libdtrace/common/dt_experimental.c:610-662 | the node and the new state are those of Rewrite.DoCallers |
| Experimental.Parser.CallersDescs | usr/src/lib/libdtrace/common/dt_experimental.c:640-648 | the strsep loop builds one `:entry` and one `:return` description per comma-separated token, in order |
| Experimental.Parser.VisitAll | usr/src/lib/libdtrace/common/dt_experimental.c:671-792 | the in-place walk leaves the node and state that Rewrite.VisitAll describes |
| Experimental.Parser.Descend | usr/src/lib/libdtrace/common/dt_experimental.c:686-791 | the switch leaves what Rewrite.Descend describes |
| Experimental.Parser.VisitList | usr/src/lib/libdtrace/common/dt_experimental.c:692-693 | the loop over a sibling list leaves what Rewrite.VisitSeq describes |
| Experimental.Parser.VisitClause | usr/src/lib/libdtrace/common/dt_experimental.c:729-738 | the walk over guard and actions leaves what Rewrite.VisitClause describes |
| Experimental.Parser.NewBasicBlock | usr/src/lib/libdtrace/common/dt_experimental.c:943-962 | the block clause under the given condition is appended, with the guard that the allocated count dictates |
| Experimental.Parser.CopyClauses | usr/src/lib/libdtrace/common/dt_experimental.c:846-854 | the clauses from first to last are appended again, in order |
| Experimental.Parser.DoIf | usr/src/lib/libdtrace/common/dt_experimental.c:816-839 | the clauses appended and the ids allocated are those ControlFlow.Control describes |
| Experimental.Parser.Unroll | usr/src/lib/libdtrace/common/dt_experimental.c:928-929 | after the copy loop the segment appears Iterations(N) times back to back |
| Experimental.Parser.DoWhile | usr/src/lib/libdtrace/common/dt_experimental.c:891-930 | the clauses appended and the ids allocated are those ControlFlow.Control describes |
| Experimental.Parser.VisitStmts | usr/src/lib/libdtrace/common/dt_experimental.c:969-1015 | the loop that cuts the list at each if/while appends the clauses and allocates the ids that ControlFlow.VisitStmts describes |
| Experimental.Parser.SplitBody | usr/src/lib/libdtrace/common/dt_experimental.c:1068-1097 | reserving condition 1, then either keeping the clause or splitting its body, appends what Assembly.Body describes |
| Experimental.Parser.Finish | usr/src/lib/libdtrace/common/dt_experimental.c:1099-1107 | the list ends as Assembly.Assemble describes; the walk state and the condition count are untouched |
| Experimental.Parser.Emit | usr/src/lib/libdtrace/common/dt_experimental.c:1068-1113 | the result is the assembled list, with the ERROR handler in front and the handle flag set exactly when the list has two or more clauses and the handle had no handler |
| Experimental.ScanInReturn | usr/src/lib/libdtrace/common/dt_experimental.c:1060-1064 | the scan is true exactly when every probe description names `return` |
| Experimental.CompileExperimental | usr/src/lib/libdtrace/common/dt_experimental.c:1042-1114 | the clauses returned and the handle's new counters and flag are exactly those of Assembly.Compile, so every property proved of Compile holds of the C procedure |

## Left out

- Lexer globals `yyintdecimal`, `yyintsuffix` and `yyintprefix` (lines 1052-1054) are not modelled. They only affect how literals are typed downstream.
- Memory management is not modelled: `strdup`, `asprintf`, the struct-copy splice and `DT_NODE_FREE`. An in-place replacement is modelled as rebuilding the node.
- `dnerror` on an unknown node kind unwinds out of the compiler. Here it is a failed result. The handle counters keep any increments made before the failure, as the C code leaves them.
- The translator, provider and program node kinds never occur inside a clause; they fall into the unknown kind. Probe-description nodes in a clause are leaves of the walk and are not visited.
- The probe node kind (`DT_NODE_PROBE`) and the freed node kind (`DT_NODE_FREE`) have no constructor in Syntax and also fall into the unknown kind. The C walk treats both as leaves and skips them (dt_experimental.c:680-688); the model reports failure (`ok == false`) on them instead. Probe nodes belong to provider declarations and freed nodes have already been replaced, so neither is expected inside a clause.
- An inline's root (`di_iarg`) is modelled as a child of the inline node. The identifier table is not modelled.
- Rewrite.VisitAll: a node that a recogniser replaced is not descended into. C switches on the replacement and descends into it. ReplacementInert proves that this descent changes nothing, so the model skips it.
- Experimental.Handle: the 32-bit counters `dt_xd_num_entrys`, `dt_xd_num_callers` and the `int` condition and if/while counts are unbounded here. Wrap-around after 2^31 uses is not modelled.
- Syntax.DescByName: `dt_node_pdesc_by_name` is not part of this model. Descriptions are filled from the right, colon by colon; empty fields and escapes get no special treatment.
- Experimental.Parser.CopyClauses: the copies share description, guard and action subtrees with the originals in C. Clauses are values here, so that sharing is not visible.
- An `if` with an empty else-list counts as having no else. The parse tree gives a NULL alternate body in that case.
- Generated clauses are compared as values; how the D runtime executes them, probe matching and `-xtree` printing are outside this file.
