# Island hopper itinerary planner, modelled in Dafny

The island hopper reads a journey of H hops and a list of customers.
- Each customer names some hops and, for each of them, the mode they want: `airborne` or `by-sea`.
- A customer is satisfied when at least one of those wishes holds.
- The program picks, for every hop, whether it is flown or sailed. It satisfies every customer and flies as few hops as possible.
- The result is written as `"0 by-sea, 1 by-sea, 2 airborne, ..."`. When no choice satisfies everyone, the result is `NO ITINERARY`.

The project models the two functions that do the work:

- `parse_input` turns the raw input lines into the hop count, the customer count and one hop-to-mode dictionary per customer.
- `find_itinerary` encodes each customer as a disjunctive clause over one boolean per hop (true means airborne). It minimises the number of true hops and renders the answer.

The original hands the minimisation to an external constraint solver. Here that call is replaced by a complete branch-and-bound search written and proved in Dafny (`MinOnes.Solve`):
- it keeps an assignment stack and tries by-sea before airborne for each hop;
- it prunes a branch once its airborne count reaches the best cost found so far, or once a clause is already falsified;
- it is proved to return an optimal assignment, or to report infeasibility exactly when no assignment of the H hops satisfies every clause.

Modules:

- `Wrappers`: `Option` and `Result`.
- `Text`: the Python string builtins the code relies on, written out character by character:
  - `str.split(", ")`, `", ".join`, `str.split()` over Python's whitespace;
  - `int()` on digit strings, and `str()` of a natural number.
- `Parser`: `parse_input`.
  - `ParseSpec` is the reference definition: it gives the result, or the first error Python would raise.
  - `ParseInput` is the double loop of the original, proved equal to `ParseSpec`.
- `MinOnes`: literals, clauses, cost, satisfaction, optimality and feasibility, and the search.
- `Itinerary`: the clause encoding, the output formatting and `find_itinerary`.
- `Fixtures`: the inputs and expected outputs of the repository's tests, plus two edge cases, as proved facts about the model.

Exceptions of the original become `Failure` values:
- a missing line is `MissingLine`;
- `int()` on a non-number is `NotAnInteger`;
- a token that does not split into exactly two fields is `WrongFieldCount`;
- the `IndexError` raised for a hop at or beyond H is `HopOutOfRange`.

## Model

| member | source | states |
|---|---|---|
| Text.SplitItemsSound | src/island_hopper.py:65 | The pieces of `line.split(", ")` joined with `", "` give the line back, and no piece contains the separator. |
| Text.JoinThenSplit | src/island_hopper.py:65 | Splitting on `", "` the join of comma-free pieces gives exactly those pieces back. |
| Text.JoinAppend | src/island_hopper.py:125 | `", ".join` of two non-empty lists put end to end is the two joins with one separator between them. |
| Text.FieldsAreWords | src/island_hopper.py:68 | Every field that `str.split()` returns is non-empty and contains no whitespace. |
| Text.FieldsBlank | src/island_hopper.py:68 | `str.split()` returns no fields exactly when the string is all whitespace. |
| Text.FieldsOfPair | src/island_hopper.py:68 | Two words with one space between them split into exactly those two fields. |
| Text.StringOfParseNat | src/island_hopper.py:69 | For a digit string without a leading zero, `str(int(s))` is `s` again; with `Text.ParseNatToString` this closes the round trip between `int()` and `str()`. |
| Text.NatToString | src/island_hopper.py:124 | `str(h)` is a non-empty digit string with no leading zero. |
| Text.ParseNatToString | src/island_hopper.py:69 | `int(str(n))` is `n` for every natural `n`. |
| Parser.ParseInput | src/island_hopper.py:60-71 | The loops over lines and tokens return exactly the reference result, including the first error Python would raise. |
| Parser.ParseSpecOutcome | src/island_hopper.py:60-71 | Parsing succeeds iff lines 0 and 1 are integers and every later line parses. H and C are those integers. There is one dictionary per line from index 2 on, in order, and their number does not depend on C. |
| Parser.ParseLinesOutcome | src/island_hopper.py:64-70 | The requirement list has one dictionary per line, in order; otherwise the error is that of the first bad line. |
| Parser.ParseTokensOutcome | src/island_hopper.py:67-69 | A line parses iff every token does; otherwise the error is that of the first bad token. |
| Parser.ParseTokensKeys | src/island_hopper.py:67-69 | The keys of the dictionary are exactly the `int(key)` of the line's tokens. |
| Parser.ParseTokensLastWins | src/island_hopper.py:69 | Each token's hop is a key. A hop given more than once keeps the mode of its last token. |
| Parser.ParseTokenOfPair | src/island_hopper.py:68-69 | The token `"h mode"`, for a one-word mode, parses to the pair (h, mode). |
| Parser.TokensFailureSticks | src/island_hopper.py:67-69 | Once a token raises, later tokens do not change what the line gives. |
| Parser.LinesFailureSticks | src/island_hopper.py:64-70 | Once a line raises, later lines do not change what the call gives. |
| Parser.LineFails | src/island_hopper.py:68-69 | An error in token j of line i, after good earlier lines and tokens, is the error of the whole call. |
| Parser.ParseTokensSnoc | src/island_hopper.py:69 | One more good token stores its mode under its hop in the dictionary built so far. |
| Parser.ParseLinesSnoc | src/island_hopper.py:70 | One more good line appends its dictionary to the list built so far. |
| MinOnes.Solve | src/island_hopper.py:113-117 | An `Optimal` answer satisfies every clause with the fewest true hops among all assignments of length H. `Infeasible` is returned exactly when no assignment of length H satisfies every clause. |
| MinOnes.CostZero | src/island_hopper.py:113 | The objective `sum(hops)` is 0 exactly when every hop is by sea. |
| MinOnes.CostOfGrounding | src/island_hopper.py:113 | Turning one airborne hop to by-sea lowers the objective by exactly one. |
| MinOnes.CostOfPush | src/island_hopper.py:113 | Adding one hop adds one to the objective if that hop is airborne, and nothing otherwise. |
| MinOnes.CostOfPrefix | src/island_hopper.py:113 | The objective of a prefix of the hops is at most the objective of all of them. |
| MinOnes.ConflictRulesOut | src/island_hopper.py:110 | A partial itinerary that already falsifies some clause cannot be extended to one that satisfies all clauses. |
| MinOnes.UnconstrainedHopBySea | src/island_hopper.py:113 | In every optimum, a hop that no clause mentions is by sea. |
| MinOnes.AddingClauseMonotone | src/island_hopper.py:110-113 | Adding a customer never lowers the optimal cost: any itinerary serving the larger set costs at least the old optimum. |
| MinOnes.AddingClauseKeepsInfeasible | src/island_hopper.py:110 | An itinerary that satisfies the clauses plus one more also satisfies the original clauses, so adding a customer never turns an infeasible problem feasible. |
| Itinerary.LiteralOfMeaning | src/island_hopper.py:106-109 | For `airborne` or `by-sea`, the literal holds iff the hop shows that mode. Any other mode string encodes like `by-sea`. |
| Itinerary.EncodedClauseHolds | src/island_hopper.py:103-110 | The clause built from a customer's dictionary holds iff the customer is served. |
| Itinerary.EncodedSatisfaction | src/island_hopper.py:103-110 | The encoded clauses are all satisfied iff every customer is served. |
| Itinerary.ServedReadsOff | src/island_hopper.py:103-110 | For customers using the two documented modes, served means that the itinerary shows the wanted mode for at least one of their hops. |
| Itinerary.EncodeRequirements | src/island_hopper.py:101-110 | It fails iff some customer names a hop at or beyond H, and then names the first such customer and such a hop. Otherwise it gives one in-range clause per customer that encodes that customer. |
| Itinerary.FormatItinerary | src/island_hopper.py:121-125 | The loop builds exactly the rendering of the assignment. |
| Itinerary.RenderEntries | src/island_hopper.py:121-125 | Split on `", "`, the output gives one entry `"h airborne"` or `"h by-sea"` for each hop 0..H-1, in ascending order. |
| Itinerary.RenderIsNotSentinel | src/island_hopper.py:120-127 | An itinerary is never the `NO ITINERARY` token, and it is empty exactly when H = 0. |
| Itinerary.RenderParsesBack | src/island_hopper.py:121-125 | Read back with `parse_input`'s line parser, a non-empty itinerary gives the mode of every hop. |
| Itinerary.FindItinerary | src/island_hopper.py:74-129 | It fails with an index error iff some hop is at or beyond H. Otherwise it returns `NO ITINERARY` iff no itinerary serves every customer, and any other answer is the rendering of an itinerary that serves everyone with the fewest airborne hops. |
| Fixtures.ParseInput1 | tests/test_island_hopper.py:36-45 | `parse_input(raw_input1)` is (6, 4, requirements1). |
| Fixtures.ParseInput2 | tests/test_island_hopper.py:36-45 | `parse_input(raw_input2)` is (2, 3, requirements2). |
| Fixtures.HopTwoForced | tests/test_island_hopper.py:13 | Every itinerary serving requirements1 flies hop 2. |
| Fixtures.CheapestItinerary1 | tests/test_island_hopper.py:13-15 | The only cheapest itinerary for requirements1 over six hops is hop 2 airborne and all others by sea. |
| Fixtures.RenderOptimum1 | tests/test_island_hopper.py:15 | That itinerary renders as output1. |
| Fixtures.FindItinerary1 | tests/test_island_hopper.py:47-56 | `find_itinerary(6, requirements1)` returns output1. |
| Fixtures.NoItinerary2 | tests/test_island_hopper.py:14 | No itinerary of two hops serves requirements2. |
| Fixtures.FindItinerary2 | tests/test_island_hopper.py:47-56 | `find_itinerary(2, requirements2)` returns `NO ITINERARY`. |
| Fixtures.FindItineraryEmpty | src/island_hopper.py:121-125 | With no hops and no customers the answer is the empty string. |
| Fixtures.FindItineraryOutOfRange | src/island_hopper.py:105-109 | A customer naming hop 3 of a three-hop journey gives the index error. |

## Left out

- `read_input` (src/island_hopper.py:5-34) is not modelled. It does file and standard-input I/O, prints and exits; the model starts from the list of lines.
- `main` (src/island_hopper.py:131-143) is not modelled. It reads `sys.argv` and prints.
- The constraint solver's internals are not modelled. The call at src/island_hopper.py:116-117 is replaced by `MinOnes.Solve`, which meets the same contract for the two statuses the code handles.
- The `RuntimeError` for any other solver status (src/island_hopper.py:128-129) is not modelled. The replacement search always reaches one of the two statuses.
- MinOnes.Solve: it returns the first optimum found in by-sea-first order. The external solver may return any optimum, so the contracts state optimality as a relation, not as one particular assignment.
- MinOnes.Solve: the search prunes only on cost and on falsified clauses. It does no unit propagation and has no branching heuristic, time budget or parallelism.
- Text.ParseNat: only non-empty strings of ASCII digits are accepted. Python's `int()` also accepts a sign, surrounding whitespace, underscores and non-ASCII decimal digits; these inputs give `NotAnInteger` in the model.
- Parser.ParseSpec: because of `Text.ParseNat`, negative hop indices are rejected at parse time. In the original, a hop h with -H <= h < 0 would silently pick hop H + h, counted from the end of the list. A hop below -H would raise `IndexError` at src/island_hopper.py:107 or 109.
- Parser.ParseSpec: a negative H is also rejected at parse time. In the original it would make an empty list of hops.
- Parser.ParseSpec: a requirement dictionary is a map, so the insertion order of the Python dictionary is not kept. The meaning of a clause does not depend on that order. The only thing that does is which `IndexError` is raised first, as the next line says.
- Itinerary.EncodeRequirements: on an out-of-range hop it names the first offending customer and one of that customer's out-of-range hops. Python raises at the first such hop in dictionary insertion order, which the model has no way to tell apart.
- Text.IsSpace: the whitespace set is Python's `str.isspace` written out as code points. There is no Unicode normalisation or case folding, and none is used by the original.
