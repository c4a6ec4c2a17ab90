# cirkit core, modelled in Dafny

This project models five parts of the cirkit logic-synthesis toolkit and
proves properties about them.

- **AIG simulation** (`simulate_aig.hpp`): a memoised depth-first
  evaluation of an and-inverter graph. It is generic in the evaluation
  domain `aig_simulator<T>` (`get_input`, `get_constant`, `invert`,
  `and_op` and the optional `terminate`). It comes with three adapters:
  `aig_lambda_simulator`, `partial_simulator` and
  `aig_partial_node_assignment_simulator`.
  - The model is in `aig.dfy`, `simulate_aig.dfy` and `simulators.dfy`.
  - The graph is an arena of nodes whose fan-ins have smaller indices.
  - The domain is a record of its five operations, as functions.
  - The DFS is an explicit-stack loop over a colour map and a value map. Callers pass both maps in and get their new contents back.
  - Every result is tied to `Aig.NodeValue`, the meaning of a node independent of any traversal.
- **Expression parser and printer** (`expression_parser.cpp`): the bracket
  syntax `(ab)`, `{ab}`, `<abc>`, `[ab]`, `!a`, `0`, `1`, `a`–`z`.
  - The parser is a stack machine, modelled both as functions (`Step`, `Run`, `Parse`) and as the imperative methods of the source.
  - The printer is `Print`; `expression_to_string` returns the same text.
  - Printing and parsing are proved inverse in both directions.
- **Permutations** (`permutation.cpp`):
  - cycle decomposition;
  - inversion count and sign;
  - cycle type;
  - the involution test;
  - the dynamic-programming test for simple permutations, over two arrays;
  - the text forms.
  - The model is in `permutation.dfy`, `permutation_simple.dfy` and `permutation_text.dfy`.
- **Line usage** (`find_lines.hpp`): the lines a gate, a gate range or a
  circuit uses, and the ones it leaves empty.
- **qpic writer** (`write_qpic.cpp`): one header line per circuit line, then
  one line per Toffoli or Fredkin gate. A decoder shows that a written
  gate line determines its gate.

Helpers shared by these parts:
- `seqs.dfy`: search, distinctness and sorting by a key;
- `text.dfy`: decimal numbers, join and split;
- `wrappers.dfy`: `Result` and `Option`;
- `circuit.dfy`: reversible circuits and gates.

Every `assert` of the source is an error value of a `Result`.

Three behaviours of the simulation engine follow the code and may surprise
a reader:
- **Root recomputation.** A cached node is not skipped when it is the
  start of a walk: it is recomputed, even when the cache already holds it. The walk is `boost::depth_first_visit`,
  which discovers its start vertex without looking at its colour.
  `SimulateNodeCached` states that only the root can be finished a second
  time. `Simulate` states that only nodes that drive an output are computed
  twice.
- **Terminated nodes.** On a node where the domain terminates, the visitor
  still calls `and_op`. A fan-in without a cached value contributes a
  default-constructed `T`; the model lets it be any value of `T`. Results are therefore tied to a node's meaning
  only for domains where `terminate` holds only when `and_op` ignores its
  operands (`Aig.Overriding`). The three adapters are such domains.
- **Cycles.** A cycle cannot occur in the arena, which makes graphs
  acyclic by construction, so cycle detection is not modelled.

## Model

Paths are relative to the repository root.

| member | source | states |
|---|---|---|
| `Aig.ReachesFanIn` | src/classical/functions/simulate_aig.hpp:394-397 | a fan-in of a reached AND node on which the domain does not terminate is itself reached, so walks compose |
| `SimulateAig.FinishNode` | src/classical/functions/simulate_aig.hpp:349-377 | the constant node gets `get_constant`. An input gets `get_input` with its index in the ordered input list. An AND node gets `and_op` of its fan-ins' cached values, each inverted exactly when its edge is complemented. For an overriding domain whose needed fan-ins are cached soundly, the result is the node's meaning |
| `SimulateAig.SimulateNodeCached` | src/classical/functions/simulate_aig.hpp:388-400 | the node ends black and cached, and its value is returned. For an overriding domain every cached value stays the node's meaning. Cached entries are kept and black stays black. Apart from the root, only nodes white before the call are finished, each at most once. Only nodes reached without entering a terminated node's fan-in change colour |
| `SimulateAig.SimulateNode` | src/classical/functions/simulate_aig.hpp:402-410 | with fresh maps, the result is the node's meaning for an overriding domain |
| `SimulateAig.SimulateFunctionCached` | src/classical/functions/simulate_aig.hpp:412-420 | the signal's value is its node's cached value, inverted exactly when the signal is complemented. For an overriding domain it is the signal's meaning, and the cache stays sound |
| `SimulateAig.SimulateFunction` | src/classical/functions/simulate_aig.hpp:422-428 | with fresh maps, the result is the signal's meaning for an overriding domain |
| `SimulateAig.Simulate` | src/classical/functions/simulate_aig.hpp:430-461 | the results have exactly one entry per declared output signal. For an overriding domain each entry is that signal's value. With one cache shared by all outputs, a node is computed more than once only if it drives an output |
| `Simulators.Lambda` | src/classical/functions/simulate_aig.hpp:292-332 | the ad-hoc domain never terminates, so it is overriding on every graph |
| `Simulators.RealInputs` | src/classical/functions/simulate_aig.hpp:205-212 | the constructor's loop collects the inputs left open by the assignment, in input order |
| `Simulators.UnassignedMembers` | src/classical/functions/simulate_aig.hpp:205-212 | `real_inputs` holds exactly the inputs that are not assigned |
| `Simulators.UnassignedPosition` | src/classical/functions/simulate_aig.hpp:224-226 | an open input is found in `real_inputs` at the number of open inputs before it in the input order |
| `Simulators.NewPartial` | src/classical/functions/simulate_aig.hpp:200-213 | the constructed adapter delegates to the base domain with the real inputs of the graph |
| `Simulators.PartialInput` | src/classical/functions/simulate_aig.hpp:215-227 | under the partial adapter an input reads its assigned value. An open input reads the base `get_input` at its position among the open inputs |
| `Simulators.PartialOverriding` | src/classical/functions/simulate_aig.hpp:229-233 | the partial adapter keeps the default `terminate`, so the engine computes every node's meaning under it |
| `Simulators.PartialEmpty` | src/classical/functions/simulate_aig.hpp:196-239 | with nothing assigned, the partial adapter gives every node the base domain's value |
| `Simulators.NodeAssignment` | src/classical/functions/simulate_aig.hpp:281-284 | `terminate` holds exactly at assigned nodes, and the adapter is overriding |
| `Simulators.NodeAssignmentValue` | src/classical/functions/simulate_aig.hpp:252-279 | assigned inputs and AND nodes take their assigned value. Open inputs take the default. The constant is the base constant, and open AND nodes take the base `and_op` of their fan-ins |
| `Simulators.NodeAssignmentConsistent` | src/classical/functions/simulate_aig.hpp:241-290 | when every assigned node carries its base value and open inputs' base value is the default, every node's value agrees with the base domain's |
| `ExpressionParser.PushExpression` | src/classical/utils/expression_parser.cpp:36-49 | the new stack is `PushExpr`: a pending inverter on top takes the expression and is pushed in turn, recursively |
| `ExpressionParser.PrepareOperation` | src/classical/utils/expression_parser.cpp:51-57 | an empty placeholder of the operation's type is pushed |
| `ExpressionParser.PushOperation` | src/classical/utils/expression_parser.cpp:59-79 | pops exactly `num_ops` operands in source order into the placeholder beneath. That placeholder must be empty and of the same type, else the error is the failed assertion |
| `ExpressionParser.ParseExpression` | src/classical/utils/expression_parser.cpp:96-175 | the loop's result is `Parse`: the single expression left, or the first error (unknown character, underflow, mismatched placeholder, no or leftover expressions) |
| `ExpressionParser.RunOpen` | src/classical/utils/expression_parser.cpp:122-136 | each opening bracket pushes the placeholder of its operation |
| `ExpressionParser.RunClose` | src/classical/utils/expression_parser.cpp:138-152 | each closing bracket completes its operation with 2 operands, or 3 for majority |
| `ExpressionParser.RunPrint` | src/classical/utils/expression_parser.cpp:177-214 | reading the printed text of a well-formed expression pushes exactly that expression |
| `ExpressionParser.RunPrintAll` | src/classical/utils/expression_parser.cpp:81-90 | reading the operands' texts, as `print_operation` writes them, pushes the operands in order |
| `ExpressionParser.ParsePrint` | src/classical/utils/expression_parser.cpp:96-221 | parsing the printer's text of a well-formed expression gives the expression back |
| `ExpressionParser.SketchStep` | src/classical/utils/expression_parser.cpp:100-168 | every accepted character appends itself to the text the stack stands for |
| `ExpressionParser.RunSketch` | src/classical/utils/expression_parser.cpp:100-169 | reading a string without error appends that string to the stack's text |
| `ExpressionParser.ParseSketch` | src/classical/utils/expression_parser.cpp:96-175 | a parsed expression stands for exactly the text it was parsed from |
| `ExpressionParser.SketchPrint` | src/classical/utils/expression_parser.cpp:177-214 | on well-formed expressions that text is the printer's output |
| `ExpressionParser.PrintParse` | src/classical/utils/expression_parser.cpp:96-221 | printing a well-formed parse result reproduces the input string |
| `ExpressionParser.ParseInjective` | src/classical/utils/expression_parser.cpp:96-175 | two different strings never parse to the same expression |
| `ExpressionParser.RunRejects` | src/classical/utils/expression_parser.cpp:154-167 | a character outside the syntax makes reading fail, whatever surrounds it |
| `ExpressionParser.ParseRejects` | src/classical/utils/expression_parser.cpp:162-166 | a string with a character outside the syntax does not parse |
| `ExpressionParser.DoubleInversion` | src/classical/utils/expression_parser.cpp:104-111 | `!!a` nests: the pending inverters take the next expression one after the other |
| `Permutation.InnerStart` | addons/cirkit-addon-reversible/src/reversible/utils/permutation.cpp:71-75 | a new cycle starts at the first unvisited index, and the mask loses its image |
| `Permutation.InnerStep` | addons/cirkit-addon-reversible/src/reversible/utils/permutation.cpp:77-81 | following the cycle adds an index not met before, and the mask strictly shrinks |
| `Permutation.InnerEnd` | addons/cirkit-addon-reversible/src/reversible/utils/permutation.cpp:83 | a closed cycle is a cycle of the permutation, disjoint from the earlier ones. It starts at the smallest index still unvisited, and the mask is clear exactly at the indices in some cycle |
| `Permutation.PermutationToCycles` | addons/cirkit-addon-reversible/src/reversible/utils/permutation.cpp:62-94 | the result is a decomposition: disjoint cycles with `c[k+1] = perm[c[k]]` and `perm[last] = first`, holding every index. In both modes each cycle is written from its smallest index. Without `sort`, each cycle starts at the smallest index no earlier cycle holds. With `sort`, whole cycles are reordered into non-increasing length |
| `Permutation.StartsAtSmallestReordered` | addons/cirkit-addon-reversible/src/reversible/utils/permutation.cpp:88-91 | reordering whole cycles keeps each one written from its smallest index |
| `Permutation.DecompositionReordered` | addons/cirkit-addon-reversible/src/reversible/utils/permutation.cpp:88-91 | reordering the cycles keeps a decomposition |
| `Permutation.CyclesType` | addons/cirkit-addon-reversible/src/reversible/utils/permutation.cpp:119-125 | the cycle lengths, sorted ascending, with one entry per cycle |
| `Permutation.CyclesTypeSum` | addons/cirkit-addon-reversible/src/reversible/utils/permutation.cpp:119-125 | the cycle type of a permutation of `n` elements adds up to `n` |
| `Permutation.ShortCyclesInvolution` | addons/cirkit-addon-reversible/src/reversible/utils/permutation.cpp:127-131 | cycles of length at most 2 make the permutation its own inverse |
| `Permutation.LongCycleNotInvolution` | addons/cirkit-addon-reversible/src/reversible/utils/permutation.cpp:127-131 | a cycle longer than 2 makes it not its own inverse |
| `Permutation.IsInvolution` | addons/cirkit-addon-reversible/src/reversible/utils/permutation.cpp:127-131 | true exactly when applying the permutation twice gives the identity |
| `Permutation.PermutationInv` | addons/cirkit-addon-reversible/src/reversible/utils/permutation.cpp:96-112 | the nested loops count the pairs `i < j` with `perm[i] > perm[j]` |
| `Permutation.InversionsZero` | addons/cirkit-addon-reversible/src/reversible/utils/permutation.cpp:96-112 | there are no inversions exactly when the sequence is ascending |
| `Permutation.InversionsSwap` | addons/cirkit-addon-reversible/src/reversible/utils/permutation.cpp:102-108 | exchanging two adjacent entries changes the count by exactly that pair |
| `Permutation.PermutationSign` | addons/cirkit-addon-reversible/src/reversible/utils/permutation.cpp:114-117 | `1` for an even inversion count, `-1` for an odd one |
| `Permutation.SignAscending` | addons/cirkit-addon-reversible/src/reversible/utils/permutation.cpp:114-117 | the identity, and every ascending sequence, has sign `1` |
| `Permutation.SignSwap` | addons/cirkit-addon-reversible/src/reversible/utils/permutation.cpp:114-117 | a transposition of adjacent distinct entries flips the sign |
| `Permutation.InvBoundAsWritten` | addons/cirkit-addon-reversible/src/reversible/utils/permutation.cpp:100 | the written bound `perm.size() - 1u` in `size_t` arithmetic is `size - 1` for non-empty input |
| `Permutation.InvLoopEndless` | addons/cirkit-addon-reversible/src/reversible/utils/permutation.cpp:100 | for the empty permutation every value of the 32-bit counter, and its successor, is below the bound, so the loop never ends |
| `Permutation.InvBoundAgrees` | addons/cirkit-addon-reversible/src/reversible/utils/permutation.cpp:100 | for non-empty input the written guard agrees with the model's `i + 1 < size` |
| `PermutationSimple.MinOfLeast` | addons/cirkit-addon-reversible/src/reversible/utils/permutation.cpp:154-161 | the running minimum of a window is no larger than any of its entries and occurs in it |
| `PermutationSimple.MaxOfGreatest` | addons/cirkit-addon-reversible/src/reversible/utils/permutation.cpp:154-161 | the running maximum of a window is no smaller than any of its entries and occurs in it |
| `PermutationSimple.Cell` | addons/cirkit-addon-reversible/src/reversible/utils/permutation.cpp:151-164 | the running index `p` of window `(r, c)` lies inside row `r`, and all rows fit in the tables |
| `PermutationSimple.OffsetClosedForm` | addons/cirkit-addon-reversible/src/reversible/utils/permutation.cpp:146 | the rows before row `i` hold `i * (2n - i + 1) / 2` cells, so all rows hold `n * (n + 1) / 2` |
| `PermutationSimple.FillRow` | addons/cirkit-addon-reversible/src/reversible/utils/permutation.cpp:154-163 | one row of the first pass fills each of its cells with its window's minimum and maximum. It leaves earlier cells unchanged and ends at the next row's start |
| `PermutationSimple.FillTables` | addons/cirkit-addon-reversible/src/reversible/utils/permutation.cpp:145-164 | after the first pass every cell holds its window's minimum and maximum |
| `PermutationSimple.IsSimple` | addons/cirkit-addon-reversible/src/reversible/utils/permutation.cpp:143-181 | false exactly when some window `[i, j]`, with `i < j` and other than the whole sequence, has `max - min == j - i` |
| `PermutationSimple.IntervalConsecutive` | addons/cirkit-addon-reversible/src/reversible/utils/permutation.cpp:172 | in a permutation, a window passes that test exactly when it holds every value from its minimum to its maximum |
| `PermutationSimple.SumnExact` | addons/cirkit-addon-reversible/src/reversible/utils/permutation.cpp:145-148 | below `2^16` entries the 32-bit table size is the true `n * (n + 1) / 2` |
| `PermutationSimple.SumnOverflow` | addons/cirkit-addon-reversible/src/reversible/utils/permutation.cpp:145-158 | with `2^16` entries the tables get 32768 cells, but the first pass writes cell 65535 |
| `PermutationText.PermutationToString` | addons/cirkit-addon-reversible/src/reversible/utils/permutation.cpp:183-186 | the text is in brackets, and inside them it splits at spaces into the decimal images |
| `PermutationText.PermutationToStringInjective` | addons/cirkit-addon-reversible/src/reversible/utils/permutation.cpp:183-186 | different permutations are written differently |
| `PermutationText.MovingMembers` | addons/cirkit-addon-reversible/src/reversible/utils/permutation.cpp:190-191 | the cycles printed without fixpoints are exactly those longer than one element |
| `PermutationText.CyclesToStringWithoutFixpoints` | addons/cirkit-addon-reversible/src/reversible/utils/permutation.cpp:188-193 | leaving out fixpoints is printing every cycle that moves something, in order |
| `PermutationText.CyclesToStringPieces` | addons/cirkit-addon-reversible/src/reversible/utils/permutation.cpp:188-193 | with fixpoints, the text splits at `)` into one `(`-led piece per cycle, holding that cycle's numbers separated by spaces |
| `PermutationText.CyclesToStringInjective` | addons/cirkit-addon-reversible/src/reversible/utils/permutation.cpp:188-193 | with fixpoints, different cycle lists are written differently |
| `PermutationText.PermutationCyclesToString` | addons/cirkit-addon-reversible/src/reversible/utils/permutation.cpp:195-198 | the text of a permutation's cycles, found in ascending order of their first index |
| `FindLines.NonEmptyLines` | addons/cirkit-addon-reversible/src/reversible/functions/find_lines.hpp:64-70 | a gate's control lines in order, then its targets in order |
| `FindLines.RangeNonEmptyLinesMembers` | addons/cirkit-addon-reversible/src/reversible/functions/find_lines.hpp:87-92 | the range version lists exactly the lines some gate of the range uses |
| `FindLines.RangeNonEmptyLinesAppend` | addons/cirkit-addon-reversible/src/reversible/functions/find_lines.hpp:87-92 | the lines of consecutive gate ranges come one range after the other, in gate order |
| `FindLines.CircuitNonEmptyLines` | addons/cirkit-addon-reversible/src/reversible/functions/find_lines.hpp:108-112 | a circuit uses exactly the lines some gate uses |
| `FindLines.Difference` | addons/cirkit-addon-reversible/src/reversible/functions/find_lines.hpp:141-142 | the set difference of a counting range and a set: the numbers in range that are not in the set, strictly ascending |
| `FindLines.RangeEmptyLinesSpec` | addons/cirkit-addon-reversible/src/reversible/functions/find_lines.hpp:182-210 | the empty lines are exactly the lines below `line_size` that no gate uses as a control or target, strictly ascending. For a circuit `line_size` is its line count |
| `FindLines.EmptyLinesOneGate` | addons/cirkit-addon-reversible/src/reversible/functions/find_lines.hpp:135-143 | a gate's empty lines are those of the one-gate range |
| `FindLines.EmptyLinesIgnoreHighLines` | addons/cirkit-addon-reversible/src/reversible/functions/find_lines.hpp:188-189 | used lines at or above `line_size` never change the result |
| `FindLines.EmptyRangeAllEmpty` | addons/cirkit-addon-reversible/src/reversible/functions/find_lines.hpp:183-190 | with no gates, every line `0 .. line_size - 1` is empty, in order |
| `FindLines.EmptyLinesShrink` | addons/cirkit-addon-reversible/src/reversible/functions/find_lines.hpp:182-190 | an empty line of a longer range is empty in each of its parts |
| `FindLines.UsedOrEmpty` | addons/cirkit-addon-reversible/src/reversible/functions/find_lines.hpp:182-190 | every line below `line_size` is either used or reported empty, never both |
| `FindLines.GateCopyAsWritten` | addons/cirkit-addon-reversible/src/reversible/functions/find_lines.hpp:68-69 | as written, the returned iterator is only the targets' length past where the controls began |
| `FindLines.RangeCopyAsWritten` | addons/cirkit-addon-reversible/src/reversible/functions/find_lines.hpp:90-91 | as written, the range version returns the iterator it was given |
| `FindLines.NonEmptyLinesOverwritten` | addons/cirkit-addon-reversible/src/reversible/functions/find_lines.hpp:64-92 | through a positional iterator, as written, a gate on lines 0 and 1 leaves only `[1]`. Two gates leave only the second one's line, and the iterator has not moved |
| `FindLines.GateCopy` | addons/cirkit-addon-reversible/src/reversible/functions/find_lines.hpp:64-70 | with the controls' iterator passed on, the gate writes its lines in order and returns the iterator one past them |
| `FindLines.RangeCopy` | addons/cirkit-addon-reversible/src/reversible/functions/find_lines.hpp:87-92 | with each gate's iterator passed on, the range writes all its lines in gate order and returns the iterator one past them |
| `Qpic.LineRef` | addons/cirkit-addon-reversible/src/reversible/io/write_qpic.cpp:42 | a line reference is `l` followed by the decimal line number |
| `Qpic.ParseFormatControl` | addons/cirkit-addon-reversible/src/reversible/io/write_qpic.cpp:40-43 | a control's text, `l<line>` or `-l<line>`, reads back as the control with its polarity |
| `Qpic.ParseFormatTargets` | addons/cirkit-addon-reversible/src/reversible/io/write_qpic.cpp:45-48 | target texts, with or without the `+` prefix, read back as the target lines |
| `Qpic.GateItems` | addons/cirkit-addon-reversible/src/reversible/io/write_qpic.cpp:59-90 | a gate has items exactly when it is a Toffoli gate or a Fredkin gate with two targets. Toffoli gives one item per control and target. Fredkin gives its controls plus three |
| `Qpic.WriteGate` | addons/cirkit-addon-reversible/src/reversible/io/write_qpic.cpp:59-90 | the push_back loops build exactly those items, or the failed assertion |
| `Qpic.Headers` | addons/cirkit-addon-reversible/src/reversible/io/write_qpic.cpp:52-55 | one header line per circuit line, in order |
| `Qpic.HeaderItems` | addons/cirkit-addon-reversible/src/reversible/io/write_qpic.cpp:54 | a header line is `l<i>`, `W`, the input name and the output name, separated by spaces |
| `Qpic.FredkinItems` | addons/cirkit-addon-reversible/src/reversible/io/write_qpic.cpp:73-86 | a Fredkin line is the two targets without prefix, `SWAP`, then the controls |
| `Qpic.ToffoliItems` | addons/cirkit-addon-reversible/src/reversible/io/write_qpic.cpp:61-72 | a Toffoli line is the controls, then the targets each marked `+` |
| `Qpic.GateItemsPlain` | addons/cirkit-addon-reversible/src/reversible/io/write_qpic.cpp:61-86 | every item of a written gate is non-empty and has no space and no newline |
| `Qpic.GateLinesOk` | addons/cirkit-addon-reversible/src/reversible/io/write_qpic.cpp:57-93 | the gate lines exist exactly when every gate is supported. They are then each gate's items joined by spaces, in gate order |
| `Qpic.GateLinesErr` | addons/cirkit-addon-reversible/src/reversible/io/write_qpic.cpp:73-90 | a failure names the first unsupported gate and says whether it is a Fredkin gate with the wrong number of targets |
| `Qpic.QpicLinesSpec` | addons/cirkit-addon-reversible/src/reversible/io/write_qpic.cpp:50-94 | the circuit is written exactly when all gates are supported. There are then `lines + gates` lines: the headers, then the gate lines in order |
| `Qpic.WriteQpic` | addons/cirkit-addon-reversible/src/reversible/io/write_qpic.cpp:50-94 | the streamed text is every line followed by a newline, or the first failed assertion |
| `Qpic.QpicTextLines` | addons/cirkit-addon-reversible/src/reversible/io/write_qpic.cpp:52-93 | when no name contains a newline, the text splits at newlines back into the lines |
| `Qpic.DecodeGateLineInverse` | addons/cirkit-addon-reversible/src/reversible/io/write_qpic.cpp:59-92 | the line of a supported gate reads back as that gate |
| `Qpic.GateLineInjective` | addons/cirkit-addon-reversible/src/reversible/io/write_qpic.cpp:59-92 | different supported gates are written as different lines |

## Left out

- Tracing output and statistics are not modelled: the verbose trace, `properties_timer`, the `node_values` statistics export and the `[w]` warning for an unassigned input.
- Only the operations of `aig_simulator` are modelled. The concrete domains (`pattern_simulator`, `tt_simulator`, `bdd_simulator`, `depth_simulator`, the word and assignment simulators) are not, because their bodies are not part of this model.
- The domain is a datatype of function values, not a class hierarchy.
  - Virtual dispatch and the adapters' references to their base domain become function fields.
  - Each `Simulator` is an immutable value, as every adapter is after construction.
- The boost graph library, `aig_dfs_visitor` and the `aig_graph` property maps are not part of this model. The walk is the explicit-stack depth-first search those implement.
  - It examines the left fan-in before the right.
  - It checks `terminate` on discovery.
  - It finishes a node after its fan-ins.
  - A cycle cannot occur in the arena, so cycle detection is not modelled.
- `SimulateAig.Simulate` does not return the final value cache; the source only exports it as a statistic.
- `PermutationText.AnyJoin` stands for `any_join`, whose definition is not part of this model. It is taken to write decimal numbers joined by the separator, as `boost::join` over `boost::lexical_cast` would. Decimal printing of `unsigned` is `Text.NatToString`.
- `Permutation.PermutationToCycles`: the default value of `sort` comes from the header, which is not part of this model. `is_involution` and `cycles_to_string(perm, …)` are modelled with `sort` false.
- `Permutation.PermutationToCycles` leaves the order of equal-length cycles after sorting unspecified, as `std::sort` does.
- `truth_table_to_permutation`, `circuit_to_permutation` and `type_to_string` are not modelled. They lie outside the modelled core and depend on truth-table code that is not part of this model.
- Numbers are unbounded. `unsigned` entries and counters are not truncated to 32 bits, except in the findings below, where the written arithmetic is spelled out.
- `find_empty_lines(gate, line_size, set)` is declared at find_lines.hpp:164, but its body is not part of this model.
- The output iterators of `find_lines.hpp` are modelled in two ways:
  - as the sequence they receive, for the insert iterators the source uses;
  - through `FindLines.Copy`, for a positional iterator.
- `circuit.hpp`, the gate classes and the target tags are not part of this model. A gate's kind is `Toffoli`, `Fredkin` or `OtherKind`.
- The qpic writer streams the header lines before it checks any gate, so an assertion abort leaves the headers already written. The model returns only the error.
- The qpic writer's behaviour in a build without assertions, where an unsupported gate writes an empty line, is not modelled.
- `write_qpic(circ, filename)` is not modelled: it only opens a file.
- `Qpic.HeaderItems` and `Qpic.QpicTextLines` read text back only for names without spaces or newlines. The writer does not escape names.
- The expression parser's behaviour in a build without assertions is not modelled. There `push_operation` (expression_parser.cpp:71-75) would accept a mismatched closing bracket, so `(ab}` would give an AND node; the model always returns `PlaceholderMismatch`.
- The expression parser's `std::cout` message for an unknown character is not modelled. Reading `stack.top()` of an empty stack at the end is undefined in the source; the model returns the `NoExpression` error for it.
- `ExpressionParser.Print` requires every inverter to have an operand. The source reads `children.front()` and has undefined behaviour otherwise.

## Findings

| source | as written | input that shows it | evidently intended | confidence | as-written member | corrected member |
|---|---|---|---|---|---|---|
| addons/cirkit-addon-reversible/src/reversible/utils/permutation.cpp:100 | the outer bound `perm.size() - 1u` is computed in `size_t` and wraps to `2^64 - 1` for an empty permutation. The 32-bit counter `i` wraps before it reaches the bound, so the loop never ends | the empty permutation | zero inversions for the empty permutation (guard `i + 1 < size`) | not executed | `Permutation.InvLoopEndless` | `Permutation.PermutationInv` |
| addons/cirkit-addon-reversible/src/reversible/utils/permutation.cpp:145-158 | `sumn = (n * (n + 1)) / 2` is computed in 32-bit `unsigned`. For `n = 65536` the product wraps, so the tables get 32768 cells, but the first pass writes cell 65535 | any permutation of 65536 elements | tables of the true `n * (n + 1) / 2` cells | not executed | `PermutationSimple.SumnOverflow` | `PermutationSimple.FillTables` |
| addons/cirkit-addon-reversible/src/reversible/functions/find_lines.hpp:64-92 | the iterator returned by the first `boost::copy` is dropped, and the range version returns the iterator it was given. With a positional output iterator, a gate's targets overwrite its controls, each gate overwrites the previous one, and the returned iterator has not moved | gate with control line 0 and target line 1, then a gate with target line 2, written through a pointer into an array | each copy continues from the iterator the previous one returned, and the end iterator is returned | not executed | `FindLines.NonEmptyLinesOverwritten` | `FindLines.RangeCopy` |
