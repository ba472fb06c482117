# Intcode machine, nanofactory reactions and permutation helpers

A Dafny model of three pieces of an Advent of Code 2019 solution set written in Go:

- **The Intcode virtual machine** (`intcode/intcode.go`). An instruction word's
  low two decimal digits are its opcode. The higher digits give one addressing
  mode per parameter: position or immediate. There are nine opcodes: add,
  multiply, input, output, the two conditional jumps, less-than, equals, and
  end (99). `ExecFull` runs a copy of the program until it ends or fails.
  - Memory is a `seq<int>`.
  - The input channel is the sequence of values it will deliver.
  - The output channel is the sequence of values sent on it.
  - Blocking on an empty input channel is an explicit `AwaitingInput` status.
  - `Exec` gives the machine an output channel nobody reads, so its first
    OUTPUT blocks forever. That is the explicit `OutputBlocked` status.
  - Go's truncating `/` and `%` are written out (`TruncDiv`, `TruncMod`).
- **The nanofactory of day 14** (`day14/day14.go`).
  - Parsing reaction lines such as `7 A, 1 B => 1 C` (`Reactions`). Go's
    `strings.Fields`, `strings.Split` and `strconv.ParseUint` are modelled in
    `Text` and `Decimal`.
  - The recipe book the lines build.
  - `getNonOre` and the greedy minimum-ore calculation `getMinimumOreForFuel`.
  - The Kahn topological numbering that `Run` computes from FUEL (`ReactionOrder`).
  - The part-two binary search for the largest affordable amount of FUEL (`FuelSearch`).
- **Helpers** (`utils/utils.go`).
  - `ParseNumberList`, over Go's `strconv.ParseInt` with its 64-bit range.
  - `NextPermutation`, a factorial-base counter.
  - `GetPermutation`, which applies one swap per counter digit (`Utils`).

Errors are explicit results:

- An Intcode error that `ExecFull` returns is a `Faulted` status naming the fault.
- A `log.Fatal` or a division by zero in day 14 is a `Failure` naming its cause.
- A `strconv` error, and the index panic of an out-of-range swap in `GetPermutation`, are a bare `None`.
- `ParseNumberList` returns a `Failure` naming the entry that fails.

Modules:

- `Wrappers`: Option and Result.
- `Decimal`: decimal digits, ParseUint, ParseInt.
- `Text`: Fields, Split, Join.
- `Intcode`.
- `Reactions`.
- `ReactionOrder`.
- `FuelSearch`.
- `Utils`.

## Model

| member | source | states |
|---|---|---|
| Intcode.Args | intcode/intcode.go:21-43 | an opcode never resolves more operand values than it has parameter slots |
| Intcode.OpcodeTableRoundTrip | intcode/intcode.go:8-16 | the opcode table is a bijection between the nine opcodes and the codes 1-8 and 99; every other code is unknown |
| Intcode.DecodeModes | intcode/intcode.go:74-78 | the mode loop yields exactly one mode per parameter slot |
| Intcode.Decode | intcode/intcode.go:65-78 | a word with a known opcode gets exactly as many modes as that opcode's arity |
| Intcode.DecodeDigits | intcode/intcode.go:65-78 | for a non-negative word, the opcode is word mod 100 and the mode of parameter j is decimal digit j+2 of the word |
| Intcode.NegativeWordIsUnknown | intcode/intcode.go:65 | a negative word has a remainder of at most 0 under Go's `%`, so it never decodes to a known opcode |
| Intcode.Read | intcode/intcode.go:84-86 | a read succeeds exactly for an address inside memory and yields that cell; otherwise it faults with that address |
| Intcode.Resolve | intcode/intcode.go:80-88 | on success, one operand per mode, each being that parameter's value under its mode; on failure, the fault of one of the operand reads |
| Intcode.Store | intcode/intcode.go:104 | storing never changes the memory size |
| Intcode.Execute | intcode/intcode.go:102-156 | the dispatch never changes the memory size |
| Intcode.Step | intcode/intcode.go:64-158 | one iteration keeps the memory size; a fault changes neither memory, ip nor output; a halt or a wait leaves the machine untouched and happens only on opcode 99, or on opcode 3 with no input left; output grows by at most one value at its end and input loses at most its front value |
| Intcode.OperandMatchesParam | intcode/intcode.go:80-88 | the decoded operand of slot j is the cell addressed by the parameter (position mode), the parameter itself (immediate mode), or 0 for any other mode digit |
| Intcode.ResolveTwo | intcode/intcode.go:80-88 | for two-operand opcodes, resolution yields exactly the two digit-defined parameter values |
| Intcode.ResolveOne | intcode/intcode.go:80-88 | for one-operand opcodes, resolution yields exactly the digit-defined parameter value |
| Intcode.StepArithmetic | intcode/intcode.go:103-106 | ADD and MULT store the sum or product of their operands at the address in slot 3, advance ip by 4, and change nothing else |
| Intcode.StepCompare | intcode/intcode.go:133-144 | LESS_THAN and EQUALS store 1 exactly when the comparison holds and 0 otherwise, then advance ip by 4 |
| Intcode.StepJump | intcode/intcode.go:119-132 | JUMP_IF_TRUE jumps to operand 2 exactly when operand 1 is non-zero, and JUMP_IF_FALSE exactly when it is zero; otherwise ip advances by 3 and nothing else changes |
| Intcode.StepInput | intcode/intcode.go:107-109 | INPUT consumes exactly the front input value, stores it at its address and advances ip by 2 |
| Intcode.StepInputWaits | intcode/intcode.go:107-108 | INPUT with no value to receive waits with the machine unchanged |
| Intcode.StepOutput | intcode/intcode.go:110-118 | OUTPUT appends exactly its operand to the output, leaves memory alone and advances ip by 2 |
| Intcode.StepEnd | intcode/intcode.go:145-150 | opcode 99 halts with the machine as it was |
| Intcode.StepUnknownOpcode | intcode/intcode.go:151-152 | a code outside the table faults with that code and changes nothing |
| Intcode.StepDestinationImmediate | intcode/intcode.go:92-96 | a three-slot storing opcode whose destination is in immediate mode is an error, returned with memory unchanged |
| Intcode.StepInputDestinationImmediate | intcode/intcode.go:92-96 | INPUT in immediate mode is the same error |
| Intcode.StepIpOutOfBounds | intcode/intcode.go:65 | an instruction pointer outside memory faults on the fetch with that address, changing nothing |
| Intcode.ResolveFirstFailure | intcode/intcode.go:80-88 | operands are read in order, and the first read that fails is the fault of the whole resolution |
| Intcode.StepOperandOutOfBounds | intcode/intcode.go:80-88 | when operand j is the first that cannot be read, the step faults on the cell out of range (the slot past the end of memory, or the address it names) and changes nothing |
| Intcode.StepDestinationOutOfBounds | intcode/intcode.go:92-109 | a non-immediate destination whose slot lies past the end of memory faults on the slot; one naming an address outside memory faults on that address, and INPUT first consumes its value or waits for one |
| Intcode.StepChangesOnlyDestination | intcode/intcode.go:97-144 | a step changes at most the cell its destination parameter names, and changes memory only when that address is in range |
| Intcode.StepEvolves | intcode/intcode.go:64-158 | a step keeps the memory size, only appends output, and only consumes input from the front |
| Intcode.EvolvesTransitive | intcode/intcode.go:64-158 | those three guarantees compose over consecutive steps |
| Intcode.Run | intcode/intcode.go:64-158 | a run keeps the memory size, output only grows, input is consumed from the front; a halted run sits on opcode 99; a waiting run sits on opcode 3 with the input exhausted |
| Intcode.RunFuelIrrelevantAfterStop | intcode/intcode.go:64-158 | once a run has stopped, a larger step budget gives the same result |
| Intcode.RunSplits | intcode/intcode.go:64-158 | running a+b steps equals running a steps and then b more if still running: instructions execute strictly in sequence |
| Intcode.RunStopsAtFault | intcode/intcode.go:92-152 | once a step faults, nothing further executes |
| Intcode.ExecFull | intcode/intcode.go:58-62 | the result memory is as long as the program, the remaining input is a suffix of the input given, and a halted run is at opcode 99 |
| Intcode.DriveKeeps | intcode/intcode.go:64-158 | a property every step keeps holds after any number of steps |
| Intcode.DriveAgrees | intcode/intcode.go:64-158 | two step functions that agree wherever the first does not block on output give the same run, unless that run blocks |
| Intcode.ExecStep | intcode/intcode.go:110-118 | with no reader on the output channel, an OUTPUT blocks on opcode 4 with the machine unchanged; every other step is the ordinary step; nothing is ever sent |
| Intcode.Exec | intcode/intcode.go:54-118 | with no input and no reader: memory size is kept, nothing is received or sent, a halt sits on opcode 99, a block sits on opcode 4, and a run that does not block is exactly ExecFull with no input |
| Decimal.DigitsValueShowNat | day14/day14.go:23 | the digit value of the rendering of n is n |
| Decimal.ParseUintShowNat | day14/day14.go:23 | ParseUint inverts decimal rendering below 2^64 |
| Decimal.ParseUintPadded | day14/day14.go:23 | ParseUint also accepts that rendering behind any number of leading zeros |
| Decimal.ParseUintAccepts | day14/day14.go:23-26 | whatever ParseUint accepts is a value below 2^64 written as leading zeros and its rendering |
| Decimal.CanonicalForm | day14/day14.go:23 | every non-empty digit string is leading zeros followed by the rendering of its value |
| Decimal.ParseIntShowInt | utils/utils.go:14 | ParseInt inverts signed decimal rendering on the 64-bit range |
| Decimal.ParseIntAccepts | utils/utils.go:14-17 | whatever ParseInt accepts is in the signed 64-bit range, is negative only after a '-' sign, and is a sign, leading zeros and the rendering of its magnitude |
| Text.WordLength | day14/day14.go:19 | the first word is the longest blank-free prefix |
| Text.Fields | day14/day14.go:19 | every field is non-empty and blank-free |
| Text.FieldsJoin | day14/day14.go:19 | splitting words joined by single blanks gives back the words |
| Text.FieldsLeadingBlank | day14/day14.go:19 | a leading blank does not change the fields |
| Text.FieldsTrailingBlank | day14/day14.go:19 | a trailing blank does not change the fields |
| Text.FindFrom | day14/day14.go:31 | the search finds the first occurrence of the separator at or after j, or reports that there is none |
| Text.Split | day14/day14.go:31-32 | Split yields at least one part, and no part contains the separator |
| Text.JoinSplit | day14/day14.go:31-32 | joining the parts of a split with its separator restores the string |
| Text.SplitJoin | day14/day14.go:31-32 | splitting a join of separator-free parts gives back the parts |
| Reactions.ParseReagent | day14/day14.go:18-28 | a term parses exactly when it has two fields and the first is a valid unsigned 64-bit decimal; the result is that quantity and the second field; a field-count error is reported as such |
| Reactions.ParseReagentShow | day14/day14.go:18-28 | rendering a reagent as `quantity name` and parsing it gives back the reagent |
| Reactions.ParseReagentPadded | day14/day14.go:18-28 | surrounding blanks, as left by splitting on `,` and `=>`, do not change the parse |
| Reactions.ParseAll | day14/day14.go:33-36 | all terms parse, in order, or the first failing term's error is returned |
| Reactions.PiecesParse | day14/day14.go:32-36 | the comma pieces of rendered ingredients parse back to the ingredients |
| Reactions.ParseLine | day14/day14.go:30-39 | a line parses exactly when its comma-separated ingredients before `=>` and its product after it all parse; a line without `=>` is an error; every parsed chemical name is non-empty |
| Reactions.ArrowSplitsShowLine | day14/day14.go:31 | splitting a rendered line on `=>` gives its ingredient part and its product part |
| Reactions.CommasSplitIngredients | day14/day14.go:32 | splitting the rendered ingredient part on `,` gives one piece per ingredient |
| Reactions.ParseLineShow | day14/day14.go:30-39 | parsing a rendered reaction line gives back its ingredients and product |
| Reactions.RecipeBook | day14/day14.go:104-109 | the book has a recipe for exactly the chemicals some line produces |
| Reactions.RecipeBookLastLineWins | day14/day14.go:107-108 | for a product named on several lines, the last line's recipe is the one kept |
| Reactions.RecipeBookWellNamed | day14/day14.go:104-109 | a book built from parsed lines never names the empty chemical |
| Reactions.GetNonOre | day14/day14.go:41-56 | the choice is a needed non-ORE chemical of least order whenever one exists (ordered below MaxInt), and "" otherwise |
| Reactions.BatchCount | day14/day14.go:80-84 | the number of batches is the ceiling of need / amount: enough batches, with less than one batch left over |
| Reactions.AddNeeds | day14/day14.go:88-91 | every chemical's need grows by exactly its ingredient quantity times the batch count, and only ingredients gain entries |
| Reactions.ExpandStep | day14/day14.go:69-91 | covering from surplus drops the need and lowers the surplus by it; otherwise the minimal number of whole batches is made, the excess becomes surplus, and the ingredients become new needs; a chemical without a usable recipe is a division-by-zero error; other surpluses are untouched |
| Reactions.LedgerAppend | day14/day14.go:85-91 | recording a batch adds its output to what was made and its ingredients to what was used |
| Reactions.BatchesKeepBalance | day14/day14.go:78-91 | making batches keeps the conservation law: need plus production equals demand plus surplus for every chemical |
| Reactions.CoverKeepsBalance | day14/day14.go:69-73 | paying a need from surplus keeps the conservation law |
| Reactions.ExpandKeepsBalance | day14/day14.go:68-93 | every iteration of the calculation keeps the conservation law |
| Reactions.NoOreProduced | day14/day14.go:58-98 | no batch ever makes ORE |
| Reactions.GetMinimumOreForFuel | day14/day14.go:58-98 | every batch made has a recipe and is not ORE; the answer is exactly the ORE the batches consumed; once the order covers every chemical, every other chemical was made at least as much as it was needed; a division-by-zero failure names a non-ORE chemical, still short of its demand, with no recipe or one making 0 units |
| ReactionOrder.AddCounts | day14/day14.go:117-119 | every term's chemical gains one in-degree per occurrence |
| ReactionOrder.Degrees | day14/day14.go:115-120 | the in-degree of x is the number of ingredient terms naming x across all products |
| ReactionOrder.KeysOf | day14/day14.go:112-114 | the products are listed once each |
| ReactionOrder.Release | day14/day14.go:131-136 | each term lowers its chemical's in-degree by one; exactly the chemicals of the list whose in-degree reaches 0 are appended, each once, behind the existing queue |
| ReactionOrder.TracksStep | day14/day14.go:126-138 | a round clears the dequeued product's list, keeps the in-degrees equal to the terms of unnumbered products, and hands out a fresh number |
| ReactionOrder.OrderedStep | day14/day14.go:126-138 | when FUEL is an ingredient of nothing, a round keeps: the queue free of repeats and numbered chemicals; every product numbered before its ingredients; numbers 0 to count-1 |
| ReactionOrder.RemDegOfReleased | day14/day14.go:115-136 | once every product using x is done, no in-degree of x is left |
| ReactionOrder.ClosedStep | day14/day14.go:126-138 | a round keeps every ingredient of a numbered product whose in-degree is 0 queued or numbered |
| ReactionOrder.ClosedAtEnd | day14/day14.go:126-138 | with the queue empty, an ingredient of a numbered product whose users are all numbered is numbered |
| ReactionOrder.TopologicalStep | day14/day14.go:126-128 | numbering a chemical last keeps every product ahead of its ingredients when all its users are numbered |
| ReactionOrder.ReachedGrows | day14/day14.go:126-128 | numbering more products keeps a chemical reached |
| ReactionOrder.ReachedStep | day14/day14.go:126-138 | a round queues only ingredients of the dequeued product whose users are all numbered |
| ReactionOrder.KahnStart | day14/day14.go:112-125 | the initial queue of FUEL alone, with nothing numbered, satisfies the invariant of the ordering |
| ReactionOrder.KahnDequeue | day14/day14.go:126-133 | every in-degree is at least the number of terms the dequeued product still lists |
| ReactionOrder.RoundStep | day14/day14.go:126-138 | one round keeps the in-degree bookkeeping, the release closure, that only reached chemicals are queued or numbered, and (when FUEL is an ingredient of nothing) the ordering |
| ReactionOrder.KahnOrderEnd | day14/day14.go:124-138 | with the queue empty, the invariant gives every guarantee of the ordering |
| ReactionOrder.KahnOrder | day14/day14.go:111-138 | FUEL is numbered and numbers are distinct and non-negative; besides FUEL, a chemical is numbered exactly when it is an ingredient of a numbered product and all its users are numbered; when FUEL is an ingredient of nothing, FUEL gets 0, the numbers are 0 to size-1, and every product is numbered before each of its ingredients |
| FuelSearch.Bisect | day14/day14.go:158-175 | the loop as written keeps ore(result) within the stock and stops on an exact hit or a one-wide bracket |
| FuelSearch.SearchFuel | day14/day14.go:145-175 | zero ore for one FUEL is an error; the search succeeds exactly when the bracket guards pass; the answer lies in the bracket and is affordable |
| FuelSearch.BisectFixed | day14/day14.go:158-175 | the corrected loop returns an amount that is affordable while one more is not |
| FuelSearch.SearchFuelFixed | day14/day14.go:145-175 | the corrected search succeeds exactly when the low guess is affordable and the high guess is not, and returns the affordable amount next to the first unaffordable one |
| FuelSearch.SearchFuelFixedIsLargest | day14/day14.go:145-175 | for a monotone ore cost, f FUEL is affordable exactly when f is at most the answer |
| FuelSearch.HalfBatchOreIsExpansion | day14/day14.go:69-91 | for the recipe `1000000000000 ORE => 2 FUEL`, one expansion of f FUEL leaves a need of a trillion ORE per two FUEL, rounded up, and no non-ORE chemical to expand, so the loop stops there |
| FuelSearch.SearchFuelMissesLargest | day14/day14.go:154-174 | with that recipe two FUEL are affordable but the search as written answers one, while the corrected search refuses the bracket |
| Utils.ParseNumberList | utils/utils.go:11-22 | the list parses exactly when every entry is a 64-bit decimal, giving the values in order; otherwise the error names an entry that fails |
| Utils.ParseNumberListShowAll | utils/utils.go:11-22 | parsing the renderings of 64-bit numbers gives back the numbers |
| Utils.ProgramLineRoundTrip | utils/utils.go:33 | a program line written with commas splits and parses back to the program |
| Utils.NextPermutation | utils/utils.go:44-52 | the last digits at their maximum wrap to 0 and the next digit (or digit 0) grows by one; on a well-formed counter the factorial-base value grows by exactly one and the counter stays well formed |
| Utils.IncrementKeepsBound | utils/utils.go:44-52 | an increment keeps every digit after the first within its radix |
| Utils.IncrementValue | utils/utils.go:44-52 | an increment adds exactly one to the counter's factorial-base value |
| Utils.ValueOfMaxDigits | utils/utils.go:44-52 | a counter with every digit at its maximum is worth one less than the factorial of its length |
| Utils.ValueOfZeros | utils/utils.go:50 | the all-zero counter is worth 0 |
| Utils.Swap | utils/utils.go:59 | one swap exchanges exactly the two positions |
| Utils.SwapFrame | utils/utils.go:59 | one swap leaves every other position alone |
| Utils.SwapPermutes | utils/utils.go:59 | one swap keeps the multiset of elements |
| Utils.SwapsPermute | utils/utils.go:58-60 | any prefix of the swaps keeps the multiset of elements |
| Utils.GetPermutation | utils/utils.go:54-62 | succeeds exactly when every swap stays in range; the result is a permutation of the original produced by the swaps in order |
| Utils.ZeroCodeIsIdentity | utils/utils.go:54-62 | the all-zero code leaves the sequence as it is |

## Left out

- Channels and goroutines. The input channel is the list of values it will
  deliver and the output channel is a list. The `halt` channel and the
  closing of the channels at opcode 99 are not modelled. A receive that would
  block forever is the `AwaitingInput` status, and under Intcode.Exec a send
  that would block forever is the `OutputBlocked` status.
- Intcode.ExecFull, Intcode.Run: a send on the output channel is taken to
  succeed at once, as if a reader were always ready. A caller that stops
  reading would block the Go machine; that case is modelled only for Exec.
- The `numExecuted` counter of `ExecFull` is never read, and it is not modelled.
- Intcode.Run, Intcode.ExecFull, Intcode.Exec: the Go loop is unbounded. These
  members take a step budget (`fuel`), and a run that is still `Running` when
  the budget is spent says nothing about later steps.
- Intcode.Step: Go's `int` is 64 bits and ADD and MULT wrap around. The model
  uses unbounded integers, so sums and products beyond 64 bits differ.
- Intcode.DecodeDigits: the worked example of word 1002 (opcode 2, modes
  position, immediate, position) is an instance of this lemma. It is not
  stated separately.
- `ParseProgram` (`utils/utils.go:24-41`) reads a file with a scanner and
  panics on a second line. File I/O is not modelled. Its parsing step is
  covered by Utils.ProgramLineRoundTrip.
- `Run` of day 14 is a composition of the modelled parts, so it is modelled
  only as those parts. Its other pieces are not modelled: reading the input
  file, printing, and picking the part. The parsed lines feed Reactions.RecipeBook.
- Reactions.RecipeBook: Go keeps a `reagants` map (product term) and a
  `productions` map (ingredient list) with the same keys. Here they are one
  map of recipes.
- ReactionOrder.KahnOrder takes the `productions` map as a `Graph` of
  ingredient lists. It is not composed with the recipe book in one member.
- FuelSearch.SearchFuel takes the ore calculation as a function parameter.
  - It is not wired to Reactions.GetMinimumOreForFuel, which is a method with
    a step budget.
  - Monotonicity of the real ore calculation is not proved. It is a
    precondition of FuelSearch.SearchFuelFixedIsLargest.
  - FuelSearch.HalfBatchOreIsExpansion connects the counterexample's cost
    function to one expansion of the real calculation.
- Reactions.GetMinimumOreForFuel:
  - It proves the conservation law, that the answer equals the ORE consumed,
    and that demand is covered.
  - It does not prove that the answer is the minimum possible ORE. The Go
    code promises no such thing for arbitrary orders either.
  - Go's loop need not end on a cyclic book. `maxSteps` bounds it, and
    running out is the `OutOfSteps` error.
  - The `uint` arithmetic is unbounded here.
  - The contract does not say when `OutOfSteps` can occur, so an
    `OutOfSteps` result before maxSteps iterations is not ruled out. The
    budget is the model's stand-in for the unbounded Go loop.
- Reactions.GetNonOre: among several needed chemicals with the same order,
  Go's choice depends on map iteration order. The model only promises one of
  least order.
- A chemical without a recipe, or one whose batch makes 0 units, makes Go
  divide by zero. That is the `ZeroBatch` error.
- ReactionOrder.KahnOrder:
  - The ordering properties are stated only when FUEL is an ingredient of no
    reaction. That is the shape of every puzzle input, and otherwise Go may
    renumber FUEL.
  - It proves that, besides FUEL, exactly the ingredients of numbered
    products whose users are all numbered are numbered.
    It does not prove that every chemical reachable from FUEL is numbered.
    That needs acyclicity, which the code never checks.
- Decimal.ParseUintShowNat, Decimal.ParseIntShowInt: the round trips are
  stated on the 64-bit range, where `strconv` accepts the rendering.
- The `strconv` error values (syntax error, range error) are reduced to
  `None`; the messages `log.Fatal` prints are not modelled.

## Findings

| source | as written | input that shows it | evidently intended | confidence | as-written member | corrected member |
|---|---|---|---|---|---|---|
| day14/day14.go:154-174 | the high guess only has to be not cheaper than the stock, and a one-wide bracket reports its low end without checking the high end | recipe `1000000000000 ORE => 2 FUEL`: the bracket is [1, 2], two FUEL cost exactly the stock, and the loop answers 1 | the largest affordable amount, 2: keep ore(low) <= stock < ore(high) and treat an exact hit as affordable | not executed | FuelSearch.SearchFuelMissesLargest | FuelSearch.SearchFuelFixedIsLargest |
