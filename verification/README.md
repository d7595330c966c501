# Cardinality encoders of SAT4J, as vendored in jnisat

This project models the cardinality encodings in `org.sat4j.tools.encoding`.
They turn "at most k of these literals are true" into CNF clauses for a SAT
solver:

- `Commander.addAtMostOne`: the commander encoding of Klieber and Kwon.
  - The literals are cut, in order, into groups of 3.
  - Each group gets a fresh commander variable, tied to its members by
    clauses.
  - The commanders are then constrained the same way, recursively.
  - A single group is encoded pairwise.
- The private `Commander.addAtMost(solver, literals, k, groupSize)`: the
  at-most-k generalisation of Frisch and Giannaros.
  - Each group gets k commanders.
  - The group's members together with its negated commanders must have
    exactly k true literals, expressed with binomial at-most and at-least
    constraints.
  - Chain clauses order each group's commanders.
  - The commander vector is handed to another at-most-k encoder.
  - A single group forbids every (k+1)-subset.
- `Sequential.addAtMost`: Sinz's sequential counter.
  - It uses (n-1)·k counter variables s[i][j], meaning "at least j+1 of
    x_0..x_i are true".
  - Its clauses push the counts forward and forbid any count from passing k.

Conventions:

- Literals follow the solver: a variable is a positive integer, and its
  negation is the negative integer. A clause is a sequence of literals, and
  an assignment is a function from variables to booleans (module `Cnf`).
- The solver is a `Sink`: the next free variable id and the clauses added
  so far (module `ClauseSink`).
- Each encoder is a pure function from a sink and the literals to an
  `Encoded`: the sink afterwards and the group of clauses the call added.
  This group stands for the returned `ConstrGroup`, flattened into the
  clauses it covers (see "## Left out").

Main theorems. For every assignment `a` of the input variables:

- the clauses can be satisfied by extending `a` to the fresh variables
- if and only if `a` makes at most k of the literals true.

These are `Commander.AtMostOneCorrect`, `CommanderK.AtMostKCorrect` (under
hypotheses on the binomial and outer encoders),
`CommanderK.AtMostKBinomialCorrect` (with a binomial reference instance) and
`Sequential.AddAtMostCorrect`. Also proved:

- the fresh-variable counts of the at-most-one and sequential encoders, the
  clause count of the sequential encoder and of each at-most-one group;
- the documented size of the at-most-one encoding with groups of 3: at most
  n/2 fresh variables and 3.5 clauses per literal, each up to a term per
  level of commanders, of which there are about log_3 n;
- for the at-most-k helper, the number of commanders (exactly nbGroup·k,
  before the outer encoder's own ids) and of chain clauses; its binomial
  and outer clauses come from encoders that are parameters here, so they
  are not counted;
- that no clause mentions an unallocated variable, that is, one at or above
  the next free id after the call, for all three encoders (given inputs
  below the next free id before it); for the at-most-k helper this holds
  given binomial encoders that keep any bound their literals keep, and an
  outer encoder that stays below the next free id plus the ids it takes.

Modules:

- `Cnf` (cnf.dfy): literals, assignments, satisfaction, positional counting
  of true literals, `Flatten`.
- `ClauseSink` (sink.dfy): the sink; ranges of fresh ids; `Stride` (i·w
  without nonlinear arithmetic); quotient and remainder.
- `Pairwise` (pairwise.dfy): the pairwise at-most-one; m-subsets in
  lexicographic order; the clauses forbidding every m-subset.
- `Commander` (commander.dfy): groups, one level of commander clauses, the
  recursive at-most-one, the code as written with its non-terminating case.
- `CommanderK` (commander_k.dfy): the at-most-k helper, with the binomial
  encoders and the outer at-most-k as parameters.
- `Sequential` (sequential.dfy): the sequential counter.

Two cases the code does not guard:

- `Sequential.addAtMost` has no case for n ≤ 1 or k = 0. It reads `s[0][0]`
  and `literals.get(n - 1)` without checking (Sequential.java:62-79).
- The at-most-k helper has no shortcut for k ≥ n (Commander.java:156-245).
  It encodes as usual, and the model proves that encoding correct for
  every k.

## Model

| member | source | states |
|---|---|---|
| Commander.NbGroupIsCeiling | src/org/sat4j/tools/encoding/Commander.java:76-77 | The integer group count is the ceiling of n / g: g times it covers n, and one group fewer does not. |
| Commander.NbGroupShrinks | src/org/sat4j/tools/encoding/Commander.java:76-135 | With more than g literals there are at least two groups and fewer groups than literals, so the recursion on the commanders is on a strictly shorter vector. |
| Commander.GroupSizeBounds | src/org/sat4j/tools/encoding/Commander.java:97-106 | Every group, including the last (n - (nbGroup-1)·g members), has between 1 and g members and ends within the input. |
| Commander.ChunksLayout | src/org/sat4j/tools/encoding/Commander.java:100-125 | Group i is exactly the literals at positions i·g .. i·g + size - 1, with size g except for the last group. |
| Commander.ChunksFlatten | src/org/sat4j/tools/encoding/Commander.java:97-125 | The groups, read in order, give back the input: every literal is in exactly one group. |
| Commander.GroupClausesCount | src/org/sat4j/tools/encoding/Commander.java:108-130 | A group of size m costs m(m-1)/2 + m + 1 clauses. |
| Commander.LevelClausesIndexed | src/org/sat4j/tools/encoding/Commander.java:100-131 | One level's clauses are the per-group clauses in group order, group i using commander c + i. |
| Commander.LevelBelow | src/org/sat4j/tools/encoding/Commander.java:91-131 | With inputs below the first commander c, a level's clauses mention no variable at or above c + nbGroup, the id after its last commander. |
| Commander.AddAtMostOneRec | src/org/sat4j/tools/encoding/Commander.java:66-137 | The sink only grows by the returned group; the fresh ids taken are one commander per group on every level above the last; a single group gives exactly the pairwise clauses. |
| Commander.RecUnfold | src/org/sat4j/tools/encoding/Commander.java:91-136 | On more than g literals: commanders are allocated first; the level's clauses reach the sink before the recursive call on the commander vector; the returned group is the level followed by the recursive group. |
| Commander.AddAtMostOne | src/org/sat4j/tools/encoding/Commander.java:54-64 | The public entry uses group size 3; zero or one literal adds nothing. On n ≥ 1 literals with L levels of commanders, it allocates at most n/2 + L fresh variables and adds at most 3.5·n + (7/3)·L clauses: the documented "n/2 variables" and "3.5 clauses" per literal, up to a term per level. |
| Commander.AuxCountHalf | src/org/sat4j/tools/encoding/Commander.java:54-58 | With groups of 3, twice the number of commanders allocated on n literals is at most n plus two per level, and fewer than n commanders are allocated. |
| Commander.LevelsLogarithmic | src/org/sat4j/tools/encoding/Commander.java:76-135 | With groups of 3, the number L of commander levels on n literals satisfies 3^L < 3n, so there are about log_3 n levels. |
| Commander.TenLiteralsExample | src/org/sat4j/tools/encoding/Commander.java:54-58 | Ten literals take six commanders over two levels, so the documented n/2 is approximate. |
| Commander.GroupClausesBound | src/org/sat4j/tools/encoding/Commander.java:108-130 | A group of one to three members costs at most 7/3 clauses per member. |
| Commander.LevelClausesBound | src/org/sat4j/tools/encoding/Commander.java:100-131 | A level of such groups costs at most 7/3 clauses per input literal. |
| Commander.AtMostOneClauseBound | src/org/sat4j/tools/encoding/Commander.java:66-137 | With groups of 3, the whole encoding has at most 7/3 clauses per literal of every level, inputs and commanders counted. |
| Commander.AddAtMostOneAsWritten | src/org/sat4j/tools/encoding/Commander.java:66-137 | The code as written, bounded by a number of activations: whenever it returns, the sink has grown only by the returned group; one to g literals form one group, encoded pairwise in the first activation with no fresh id. |
| Commander.EmptyInputNeverReturns | src/org/sat4j/tools/encoding/Commander.java:76-135 | On an empty vector the code as written does not return within any number of activations. |
| Commander.AsWrittenAgrees | src/org/sat4j/tools/encoding/Commander.java:66-137 | On a non-empty vector of n literals the code as written returns within n activations, and returns exactly the corrected recursion's result. |
| Commander.AtMostOneAllocated | src/org/sat4j/tools/encoding/Commander.java:91-135 | With inputs below the next free id, no emitted clause mentions a variable at or above the sink's new next free id. |
| Commander.GroupComplete | src/org/sat4j/tools/encoding/Commander.java:108-130 | In a model of a group's clauses at most one member is true, and none unless the commander is true. |
| Commander.GroupSound | src/org/sat4j/tools/encoding/Commander.java:108-130 | A group with at most one true member, whose commander is true exactly when some member is, satisfies the group's clauses. |
| Commander.LevelComplete | src/org/sat4j/tools/encoding/Commander.java:100-131 | In a model of a level, no more inputs are true than commanders. |
| Commander.LevelSound | src/org/sat4j/tools/encoding/Commander.java:100-131 | With at most one true input and each commander equal to "some member true", the level is satisfied and no more commanders than inputs are true. |
| Commander.CommanderWitness | src/org/sat4j/tools/encoding/Commander.java:117-131 | With at most one true input, setting the commanders to "some member true", and changing no variable below the first commander, satisfies the level and makes at most one commander true. |
| Commander.AtMostOneComplete | src/org/sat4j/tools/encoding/Commander.java:66-137 | Every model of the emitted clauses makes at most one input true. |
| Commander.AtMostOneSound | src/org/sat4j/tools/encoding/Commander.java:66-137 | Every assignment with at most one true input extends, on the fresh variables only, to a model of the emitted clauses. |
| Commander.AtMostOneCorrect | src/org/sat4j/tools/encoding/Commander.java:59-137 | The emitted clauses are satisfiable by an extension of an assignment if and only if it makes at most one input true. |
| Commander.ThreeLiteralsExample | src/org/sat4j/tools/encoding/Commander.java:79-89 | On [1, 2, 3] the encoding is {-1,-2}, {-1,-3}, {-2,-3}, added to the sink, with no fresh variable. |
| Pairwise.PairwiseSemantics | src/org/sat4j/tools/encoding/Commander.java:79-89 | The pairwise clauses hold if and only if at most one literal is true. |
| Pairwise.PairwiseCount | src/org/sat4j/tools/encoding/Commander.java:80-87 | The pairwise encoding of n literals has n(n-1)/2 clauses. |
| Pairwise.PairwiseAt | src/org/sat4j/tools/encoding/Commander.java:80-87 | For i < j, the clause {¬l_i, ¬l_j} is emitted at the pair's rank in (i, j) loop order. |
| Pairwise.PairRankLex | src/org/sat4j/tools/encoding/Commander.java:80-87 | Pairs are emitted in lexicographic order of (i, j). |
| Pairwise.PairwiseBelow | src/org/sat4j/tools/encoding/Commander.java:80-87 | If every literal's variable is below a bound, so is every variable of the pairwise clauses. |
| Pairwise.CombosExactly | src/org/sat4j/tools/encoding/Commander.java:157-163 | The enumerated m-subsets are exactly the length-m subsequences of the literals. |
| Pairwise.CombosCount | src/org/sat4j/tools/encoding/Commander.java:157-163 | There are C(n, m) of them. |
| Pairwise.ForbidSubsetsSemantics | src/org/sat4j/tools/encoding/Commander.java:156-165 | The clauses negating every (k+1)-subset hold if and only if at most k literals are true. |
| Pairwise.ForbidSubsetsBelow | src/org/sat4j/tools/encoding/Commander.java:156-165 | If every literal's variable is below a bound, so is every variable of those clauses. |
| Pairwise.PairwiseIsForbidPairs | src/org/sat4j/tools/encoding/Commander.java:80-87 | The pairwise encoding is the k = 1 case of forbidding every (k+1)-subset, clause for clause. |
| CommanderK.AllocateRow | src/org/sat4j/tools/encoding/Commander.java:170-175 | Allocating one group's k commanders takes the next k ids in order and appends them to the commander vector. |
| CommanderK.AllocateCommanders | src/org/sat4j/tools/encoding/Commander.java:167-185 | Group i owns the k consecutive ids from next + i·k, the last group included; the commander vector is all nbGroup·k of them in order. |
| CommanderK.CommanderRowAt | src/org/sat4j/tools/encoding/Commander.java:167-185 | Row i of the commander matrix is the id range from base + i·k of length k. |
| CommanderK.CommanderRowsFlatten | src/org/sat4j/tools/encoding/Commander.java:168-185 | The rows, read in order, are the commander vector. |
| CommanderK.GroupTabLayout | src/org/sat4j/tools/encoding/Commander.java:187-218 | Group tab i holds the group's members, in order, followed by the negations of its k commanders. |
| CommanderK.AddAtMostK | src/org/sat4j/tools/encoding/Commander.java:146-248 | The sink only grows by the group; one group forbids every (k+1)-subset with no fresh id; otherwise at least nbGroup·k fresh ids are taken. |
| CommanderK.AtMostKUnfold | src/org/sat4j/tools/encoding/Commander.java:167-245 | With several groups the group is the binomial at-most clauses of every tab, then the binomial at-least clauses, then the chains, then the outer encoder's clauses on the commander vector; the outer encoder's fresh ids start after the commanders. |
| CommanderK.AtMostKCommanders | src/org/sat4j/tools/encoding/Commander.java:167-185 | Exactly nbGroup·k commanders are allocated before the outer encoder runs, and they form the vector it receives. |
| CommanderK.ChainSemantics | src/org/sat4j/tools/encoding/Commander.java:236-243 | A row's chain clauses hold if and only if its commanders are monotone: once one is true, all later ones are. |
| CommanderK.ChainReaches | src/org/sat4j/tools/encoding/Commander.java:236-243 | Under the chain clauses a true commander makes every later commander of the row true. |
| CommanderK.ChainsCount | src/org/sat4j/tools/encoding/Commander.java:236-243 | There are nbGroup·(k-1) chain clauses. |
| CommanderK.EncodeEachSatisfied | src/org/sat4j/tools/encoding/Commander.java:220-234 | The per-tab clauses hold if and only if each tab's clauses hold. |
| CommanderK.GroupCounts | src/org/sat4j/tools/encoding/Commander.java:220-234 | If a tab has exactly k true literals, its group has as many true members as its row has true commanders. |
| CommanderK.GroupWitness | src/org/sat4j/tools/encoding/Commander.java:187-243 | Making a row's last t commanders true, where t is the number of true members, gives the tab exactly k true literals and satisfies the chain. |
| CommanderK.LocalSound | src/org/sat4j/tools/encoding/Commander.java:187-243 | With at most k true inputs, commander values exist, changing no input, that satisfy every tab's clauses and the chains, with as many true commanders as true inputs. |
| CommanderK.LocalComplete | src/org/sat4j/tools/encoding/Commander.java:187-234 | In a model of the tabs' clauses, the inputs and the commanders have the same number of true literals. |
| CommanderK.TabsBelow | src/org/sat4j/tools/encoding/Commander.java:187-218 | With inputs below the first commander, every tab mentions no variable at or above the id after the last commander. |
| CommanderK.ChainsBelow | src/org/sat4j/tools/encoding/Commander.java:236-243 | The chain clauses mention no variable at or above the id after the last commander. |
| CommanderK.AtMostKAllocated | src/org/sat4j/tools/encoding/Commander.java:146-248 | With inputs below the next free id, binomial encoders that keep any bound their literals keep, and an outer encoder that stays below the next free id plus the ids it takes, no clause of the helper mentions an unallocated variable. |
| CommanderK.AtMostKSound | src/org/sat4j/tools/encoding/Commander.java:146-248 | With exact binomial encoders and a sound outer encoder, every assignment with at most k true inputs extends on fresh variables to a model. |
| CommanderK.AtMostKComplete | src/org/sat4j/tools/encoding/Commander.java:146-248 | With exact binomial encoders and a complete outer encoder, every model makes at most k inputs true. |
| CommanderK.AtMostKCorrect | src/org/sat4j/tools/encoding/Commander.java:146-248 | Under those hypotheses the clauses are satisfiable by an extension if and only if at most k inputs are true. |
| CommanderK.BinomialAtMostExact | src/org/sat4j/tools/encoding/Commander.java:220-227 | The reference binomial at-most (forbid every (d+1)-subset) holds if and only if at most d literals are true. |
| CommanderK.BinomialAtLeastExact | src/org/sat4j/tools/encoding/Commander.java:229-234 | The reference binomial at-least (every (n-d+1)-subset has a true literal) holds if and only if at least d literals are true. |
| CommanderK.BinomialMeetsHypotheses | src/org/sat4j/tools/encoding/Commander.java:220-245 | The reference binomial encoders, also used as the outer encoder, meet every hypothesis of the at-most-k theorems. |
| CommanderK.AtMostKBinomialCorrect | src/org/sat4j/tools/encoding/Commander.java:146-248 | With binomial encoders throughout, the at-most-k encoding is satisfiable by an extension if and only if at most k inputs are true, for every k and group size. |
| Sequential.CounterIds | src/org/sat4j/tools/encoding/Sequential.java:62-67 | Counter s[i][j] is variable base + j·(n-1) + i: column by column allocation. |
| Sequential.AllocateCounters | src/org/sat4j/tools/encoding/Sequential.java:62-67 | The allocation loop builds that matrix and takes exactly (n-1)·k fresh ids. |
| Sequential.AddAtMostCounts | src/org/sat4j/tools/encoding/Sequential.java:51-106 | The encoding adds (n-1)·k variables and 2nk + n - 3k - 1 clauses, as its documentation says. |
| Sequential.SeqClausesCount | src/org/sat4j/tools/encoding/Sequential.java:68-106 | k + 1 clauses come before the middle rows and each of the n-2 middle rows adds 2k + 1. |
| Sequential.TopRowMeaning | src/org/sat4j/tools/encoding/Sequential.java:73-77 | The first row's unit clauses hold if and only if no count above 1 is set after x_0. |
| Sequential.StepsMeaning | src/org/sat4j/tools/encoding/Sequential.java:91-101 | Row i's step clauses hold if and only if x_i raises count j to j+1 and every count is kept. |
| Sequential.RowMeaning | src/org/sat4j/tools/encoding/Sequential.java:82-106 | Row i's clauses hold if and only if x_i starts a count, counts are kept and raised, and x_i cannot raise a count already at k. |
| Sequential.RowsMeaning | src/org/sat4j/tools/encoding/Sequential.java:82-106 | The middle rows hold if and only if every row's condition holds. |
| Sequential.SeqClausesMeaning | src/org/sat4j/tools/encoding/Sequential.java:68-106 | All the clauses hold if and only if the first row, the middle rows and the last input's cut-off all hold. |
| Sequential.CountersTrack | src/org/sat4j/tools/encoding/Sequential.java:68-106 | In a model, after x_i at most k inputs are true, and if at least j+1 are, counter s[i][j] is true. |
| Sequential.SinzComplete | src/org/sat4j/tools/encoding/Sequential.java:68-106 | Every model of the clauses makes at most k inputs true. |
| Sequential.SinzSound | src/org/sat4j/tools/encoding/Sequential.java:68-106 | Counters set to the exact counts satisfy the clauses when at most k inputs are true. |
| Sequential.CounterValues | src/org/sat4j/tools/encoding/Sequential.java:62-106 | Those exact counter values can be given to the fresh ids without changing any input. |
| Sequential.AddAtMostCorrect | src/org/sat4j/tools/encoding/Sequential.java:56-108 | The clauses are satisfiable by an extension of an assignment if and only if it makes at most k inputs true, for every k ≥ 1, k ≥ n included. |
| Sequential.AddAtMost | src/org/sat4j/tools/encoding/Sequential.java:56-108 | The sink only grows by the returned group, and every clause has one to three literals, each a negated input or one of the counters this call allocated, positive or negated. |
| Sequential.AddAtMostAllocated | src/org/sat4j/tools/encoding/Sequential.java:62-106 | With inputs below the next free id, no clause mentions an unallocated variable. |

## Left out

- The JNI solver adapters, native glue and library loading (`src/jnisat`, `jni`) are not part of this model. They are handle management and foreign calls. `Solver.java` shows only the shape of the clause sink, which is what `Sink` models.
- `Sat4J.java` and `Validate.java` are not part of this model. The first wraps a solver that is not shown, and the second is an example application.
- `ContradictionException` from `addClause` is left out. The sink always accepts a clause.
- The console printing at Commander.java:226 and :233 is left out.
- `Binomial` and `EncodingStrategyAdapter` are not part of this model.
  - Their encoders are function parameters of `CommanderK.AddAtMostK`, constrained by the hypotheses `ExactAtMost`, `ExactAtLeast`, `Local`, `SubSound`, `SubComplete` and `SubLocal`.
  - This includes the superclass `addAtMost` that the call at Commander.java:245 resolves to.
  - `CommanderK.AtMostKBinomialCorrect` discharges the hypotheses for a reference binomial encoding, which is not necessarily the library's own clause order.
- The public `Commander.addAtMost` (Commander.java:139-144) only delegates to the superclass. There is nothing of its own to model.
- `Math.ceil` over doubles is replaced by the exact integer ceiling `NbGroup` (see NbGroupIsCeiling). Floating-point rounding is not modelled.
- The order in which `VecInt.subset(k + 1)` enumerates subsets is not visible. It is modelled as the lexicographic order of positions. Only the set of clauses matters to the theorems.
- CommanderK.AddAtMostK requires at least one literal. On none, the code computes zero groups and then throws: at `c[nbGroup - 1][j]` (Commander.java:183) when k ≥ 1, and at `groupTab[nbGroup - 1]` (Commander.java:211) when k = 0.
- CommanderK.AddAtMostK takes k as a natural number. For a negative k and several groups, `new int[nbGroup][k]` (Commander.java:167) throws. For a negative k and a single group, the code returns the clauses of `literals.subset(k + 1)` (Commander.java:156-164); what `subset` does with a size below 1 is not part of this model.
- Sequential.AddAtMost requires n ≥ 2 and k ≥ 1. For n = 0 or k < 0, the allocation `new int[n - 1][k]` (Sequential.java:62) throws. For n = 1 or k = 0 the allocation succeeds and the read of `s[0][0]` (Sequential.java:70) throws.
- The code reuses one `clause` buffer and clears it after every `addClause` (for example Commander.java:84-85 and :161-162, Sequential.java:71-72 and :80-81). The model treats each clause as a value, so it assumes the solver copies the clause it is given.
- The returned `ConstrGroup` is modelled as the flat sequence of clauses it covers. In the code it is a tree of the handles `addClause` returns (Commander.java:69, :148; Sequential.java:59): the recursive call's group (Commander.java:135), each binomial group (:225, :232) and the outer call's group (:245) are each added as one nested entry, so `getConstr(i)` at :226 and :233 returns a sub-group. The model keeps the clauses in the same order but not the nesting or the handles.
- Java's 32-bit `int` is not modelled: variable ids and counts are unbounded integers. The code allocates ids from a solver that is not shown.
- Commander.AddAtMostOneAsWritten bounds the recursion with a fuel count. It can only say "did not return within that many activations", not "never returns".

## Findings

| source | as written | input that shows it | evidently intended | confidence | as-written member | corrected member |
|---|---|---|---|---|---|---|
| src/org/sat4j/tools/encoding/Commander.java:76-135 | The group count of an empty literal vector is 0. That is not 1, so the code skips the pairwise base case, allocates no commander and recurses on an empty vector with an unchanged solver. The recursion never ends; on a JVM it ends in a `StackOverflowError` thrown to the caller. | `addAtMostOne(solver, new VecInt())` | An empty vector is trivially "at most one" and should add no clause, as a single literal does | not executed | Commander.EmptyInputNeverReturns | Commander.AtMostOneCorrect |
