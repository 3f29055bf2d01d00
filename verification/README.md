# Sparkinterval reference programs, modelled and proved

This project models four parts of the repository and proves what they are relied on for.

1. **Exact binary64 intervals** (`reference/exact_binary64.py`, `reference/format.py`, `reference/evaluator.py`).
   Words are numbers below 2^64 and their values are reals. The two binary searches, the directed and
   nearest roundings, every interval operation, the hexadecimal wire form, the validators, the tree-to-postfix
   compiler, the stack machine and the certificate check are modelled. The main result is certificate
   soundness: an accepted certificate encloses the true value at every point of every row.
2. **The Abel engine and its replayer** (`reference/tg_cdem_abel.cpp`, `reference/tg_cdem_abel_chunk_replay.cpp`).
   K, N, the block size and the weight scale are parameters. Both Möbius sieves are proved against one definition,
   which is itself tied to Möbius inversion. The block-parallel producer, run in any block order, and the
   independent replayer are proved to compute the same serial recurrence, with the same weights. The emitted bounds are
   compared with the real sums they bound. The states are bounded through the mean of the Möbius function and a block's
   variation by pairing divisors, so that every table the program can address is computed without overflow.
3. **The artifact, its checker and the worker pool** (`reference/tg_cdem_abel_measured_workload.cpp`,
   `reference/tg_cdem_abel_artifact_terminal.cpp`). Readers accept exactly what the writers write. Publication of a
   result implies that the serial recurrence over [1, N] has the published state and totals, under every
   interleaving of the workers; conversely what the producer computes and prints can be published.
4. **The operator journal** (`azure/cpu_production_orchestrator.py`, journal part). Commands and crashes act on a
   class holding the event journal and the cached head; safety is proved over every history of atomic writes.

## How it is organised

| file | contents |
|---|---|
| Outcomes, Numbers, MachineWords | options and results, named arithmetic, machine words and digest text |
| Binary64, Rounding | words, values, order, roundings, neighbours |
| Intervals, IntervalLaws | interval operations and their enclosure and isotonicity |
| Tightness, EndpointWords | when a result is the tightest enclosure; results as words, signs of zeros included |
| WireFormat, Evaluator, Certificates | wire form and limits, compiler and stack machine, batches and certificates |
| PointRows | evaluation at points, where it is exact |
| Divisibility, Mobius, Sieves | Euclid's lemma, Möbius inversion, the two sieves |
| Weights, AbelRecurrence | weights, and the recurrence as a specification |
| AbelBounds, StateBounds, VariationBounds | machine-word bounds on scans; how far states and variation really go |
| Replayer, Producer, SummaryLaws, AbelAccuracy | the two programs, what their summaries are and how sharp their bounds |
| Decimals, ArtifactCodec, ArtifactFrame | decimal text, fixed-width numbers, whole artifacts |
| ReplayText, Terminal, Transcript | replay text, acceptance, the workload's check |
| WorkerPool, Publication, Completeness | the pool, what publication implies, and that honest production is published |
| Journal, Operator | events, derivation and disk; the commands |

Where the source updates variables in a loop or fields of an object there is a method or a class, proved against a
function or a relation; the laws are lemmas about those. Python's exceptions and the C++ error exits are `Result` or
`Option` values. `dafny verify dfyconfig.toml` checks everything.

## Findings

- **A stranded journal.** `initialize_state` makes the journal directory and then writes event 0
  (`azure/cpu_production_orchestrator.py:1160-1177`). If the process stops between the two, the directory is empty, the
  derivation refuses it, and because the directory exists no command ever writes event 0, head recovery included.
  `Operator.Orchestrator` states this: on an empty directory `InitializeState`, `RecoverStateHead`, `Run` and `Adopt`
  change nothing. With every write atomic this is the only window: in every other history the journal derives. A stop
  inside a write is another matter, because `_atomic_write` puts its temporary file into the journal directory
  (`azure/cpu_production_orchestrator.py:1021-1048`), where the derivation refuses it; that case is left out below.
- **A check that cannot fail.** In the terminal, the byte offset after the last row always equals the frame length,
  because the length was compared first (`reference/tg_cdem_abel_artifact_terminal.cpp:343` and `:401`).
- **Rows past the end.** `parseArtifact` alone accepts trailing empty rows (N+1, N), leaving any state, if the row count
  exceeds the block count (`ArtifactFrame.EmptyRowAccepted`), and an acceptable table has only nonempty rows exactly when
  the two counts agree (`ArtifactFrame.RowsNonempty`). The production constants agree, and the model does not assume
  it: the replayer refuses an empty row, so publication still implies the recurrence.
- **Not always tight at infinity.** Arithmetic on intervals collapses to the whole line as soon as an endpoint is
  infinite. Adding the nonnegative half-line to itself shows that the result need not be the tightest enclosure
  (`Tightness.HalfLineNotTight`); adding the whole line to itself shows that it can be (`Tightness.WholeLineTight`).
  `Tightness.OperationTight` says exactly when it is, by a condition on the endpoints: both operands hold a number, and
  either the operation does not collapse or its exact image passes the finite words on both sides.
- **Every addressable table.** The argument checks pass any N below 2^64 - 1, but a table of N + 1 32-bit entries is
  addressable only for N + 1 up to (2^64 - 1) / 4, and its allocation stops the program otherwise. Whatever passes stays
  within the program's integers for every K, every block size and every N: states (`Producer.SerialStateBound`) and a
  block's 64-bit variation (`VariationBounds.VariationWindow`). The bound on the variation has to be below four times the
  block's length for this, which a count of divisors does not give.
- **Overflow exits.** None of the replayer's overflow exits can be taken for arguments that pass its range checks and a
  scale up to 2^60 (`Replayer.Replay`; the production scale is 10^18).

## Model

| member | source | states |
|---|---|---|
| Binary64.ClassesFromFields | reference/exact_binary64.py:84-151 | the model's comparisons on words agree with sign, exponent and fraction fields |
| Binary64.ClassMeaning | reference/exact_binary64.py:90-125 | the class of a word tells its sign and whether its magnitude reaches the least normal value |
| Binary64.ValueStep | reference/exact_binary64.py:154-166 | consecutive finite encodings differ by one unit in the last place, across exponent boundaries too |
| Binary64.ValueMonotone | reference/exact_binary64.py:154-166 | encodings order as values |
| IntervalLaws.OneIsOne | reference/exact_binary64.py:154-166 | the word 0x3FF0000000000000 decodes to 1, which with ValueStep fixes every value |
| Binary64.NumericOrder | reference/exact_binary64.py:457-476 | numeric order of non-NaN words, zeros identified, is the order of signed encodings |
| Binary64.EndpointCompare | reference/exact_binary64.py:469-476 | the comparison is total on non-NaN words and its sign is the numeric order |
| Binary64.SelectorsMeet | reference/exact_binary64.py:479-499 | minimum and maximum select by one total order that puts negative zero first |
| Rounding.PositiveFloor | reference/exact_binary64.py:201-219 | the search loop returns the greatest finite encoding at or below v |
| Rounding.PositiveCeil | reference/exact_binary64.py:222-240 | the search loop returns the least encoding at or above v, infinity past the range |
| Rounding.NegateMirrors | reference/exact_binary64.py:243-247 | negating a word mirrors its value and is its own inverse |
| Rounding.RoundUpMirrorsRoundDown | reference/exact_binary64.py:250-271 | rounding up is rounding down of the negation, negated |
| Rounding.RoundDownIsGreatest | reference/exact_binary64.py:250-259 | a word lies at or below v exactly when it lies at or below round_down(v) |
| Rounding.RoundUpIsLeast | reference/exact_binary64.py:262-271 | a word lies at or above v exactly when it lies at or above round_up(v) |
| Rounding.OverflowExactlyFromThreshold | reference/exact_binary64.py:274-293 | nearest rounding overflows exactly from the threshold of section 4.3.1 of IEEE 754-2019 |
| Rounding.ThresholdIsMidway | reference/exact_binary64.py:274-278 | the overflow threshold lies half a unit in the last place above the greatest finite value |
| Rounding.RoundNearestEvenIsNearest | reference/exact_binary64.py:296-304 | no finite word is closer to v, ties go to an even encoding, infinities exactly from the threshold |
| Rounding.NextUpIsLeastAbove | reference/exact_binary64.py:307-324 | next_up is the least word above, and next_down returns from it |
| Rounding.NextDownIsGreatestBelow | reference/exact_binary64.py:327-342 | next_down is the greatest word below |
| Rounding.DirectedRoundingsAdjacent | reference/exact_binary64.py:250-342 | round_up(v) is next_up(round_down(v)) as words unless v is representable, then both decode to v |
| Intervals.DecodeRoundTrip | reference/exact_binary64.py:169-188 | exactly the finite words decode, and rounding a decoded value in any mode returns the word, zeros as a zero |
| Intervals.AddRounds | reference/exact_binary64.py:357-367 | exact addition rounds the exact sum in every mode |
| Intervals.SubRounds | reference/exact_binary64.py:370-380 | likewise for differences |
| Intervals.MulRounds | reference/exact_binary64.py:383-391 | likewise for products |
| Intervals.DivRounds | reference/exact_binary64.py:394-406 | division fails exactly for zero divisors and otherwise rounds the exact quotient |
| Intervals.ProductSign | reference/exact_binary64.py:383-406 | products and quotients have the exclusive or of the signs, in every mode and through underflow (section 6.3 of IEEE 754-2019) |
| Intervals.SumSign | reference/exact_binary64.py:345-367 | like signs are kept, an exact zero of unlike signs is negative only rounding down, other sums have the exact sign |
| Intervals.DifferenceIsSum | reference/exact_binary64.py:357-380 | subtraction gives the same word as adding the negated word |
| Intervals.MakeInterval | reference/exact_binary64.py:502-520 | an interval is built exactly from ordered non-NaN endpoints |
| Intervals.SelectFour | reference/exact_binary64.py:552-559 | the selection loop folds the selector over the four corners |
| Intervals.IntervalPowNat | reference/exact_binary64.py:667-685 | the recurrence loop multiplies by the base, exponent times, from one |
| IntervalLaws.SelectFoldIsExtreme | reference/exact_binary64.py:552-559 | the selected word is one of the four and extreme among them |
| IntervalLaws.CornersOutward | reference/exact_binary64.py:562-609 | selecting among four rounded corners equals rounding the extreme exact corner |
| IntervalLaws.OperationTotal | reference/exact_binary64.py:536-664 | an operation fails exactly when a divisor contains zero |
| IntervalLaws.OperationEncloses | reference/exact_binary64.py:536-664 | the result contains the exact result for every pair of points |
| IntervalLaws.InfiniteOperands | reference/exact_binary64.py:530-609 | with an infinite endpoint the result holds every number and every interval |
| IntervalLaws.OperationIsotone | reference/exact_binary64.py:536-664 | narrower operands succeed whenever wider ones do and give a narrower result |
| IntervalLaws.NegLaw | reference/exact_binary64.py:612-620 | negation of intervals mirrors membership exactly |
| IntervalLaws.AbsEncloses | reference/exact_binary64.py:630-642 | the absolute value encloses |
| IntervalLaws.AbsTight | reference/exact_binary64.py:630-642 | no interval that holds all absolute values is smaller, infinite endpoints included |
| IntervalLaws.AbsIsotone | reference/exact_binary64.py:630-642 | and is isotone |
| IntervalLaws.PowEncloses | reference/exact_binary64.py:667-685 | the power encloses the product of any points of the base, equal or not |
| IntervalLaws.PowIsotone | reference/exact_binary64.py:667-685 | and is isotone |
| Tightness.PowZeroIsOne | reference/exact_binary64.py:667-685 | the power with exponent 0 holds 1 and no other number, and lies in every interval that holds 1 |
| Tightness.PowStepTight | reference/exact_binary64.py:667-685 | each further power is the tightest interval that holds all products of a point of the power before and one of the base, exactly where interval products are tight |
| PointRows.OperationPoint | reference/exact_binary64.py:536-664 | at points, an operation whose exact result is a word gives exactly that number |
| PointRows.PowPoint | reference/exact_binary64.py:667-685 | at a point whose powers up to n are words the n-th interval power is exactly the n-th power |
| PointRows.TreePoint | reference/evaluator.py:49-123 | on rows of points with only words on the way a tree evaluates to exactly its value |
| PointRows.RowPoint | reference/evaluator.py:36-123 | and so do the compiled program and its encoded row |
| EndpointWords.RoundedSigns | reference/exact_binary64.py:250-304 | rounding keeps signs, and zero becomes negative zero rounding down and positive zero otherwise |
| EndpointWords.NeighbourWords | reference/exact_binary64.py:307-342 | stepping off a nonzero word keeps its sign, onto zero included, and stepping back returns the word |
| EndpointWords.NegWords | reference/exact_binary64.py:612-620 | negating an interval flips both signs and is its own inverse, as words |
| EndpointWords.AbsWords | reference/exact_binary64.py:623-642 | absolute values have no negative ends, and an interval and its negation have the same one |
| EndpointWords.MinMaxWords | reference/exact_binary64.py:645-664 | minimum and maximum select end by end in the order that puts negative zero first |
| EndpointWords.MinIsNegatedMax | reference/exact_binary64.py:645-664 | the minimum is the negated maximum of the negations, as words |
| EndpointWords.AddWords | reference/exact_binary64.py:536-541 | the signs of both ends of a sum, zeros included |
| EndpointWords.SubWords | reference/exact_binary64.py:544-549 | subtraction is addition of the negation, as words |
| EndpointWords.CornerEnds | reference/exact_binary64.py:552-609 | the ends of products and quotients are results at operand ends, first and last among all of them with negative zero first |
| Tightness.OperationTight | reference/exact_binary64.py:530-664 | exactly when the result of an operation lies in every binary64 interval that encloses the exact image, infinite endpoints included |
| Tightness.WholeTight | reference/exact_binary64.py:530-541 | a result collapsed to the whole line is tight exactly when the image passes all finite words both upwards and downwards |
| Tightness.HighExact | reference/exact_binary64.py:536-609 | the condition on the endpoints holds exactly when some exact result lies above every finite word |
| Tightness.LowExact | reference/exact_binary64.py:536-609 | and its mirror image exactly when some exact result lies below |
| Tightness.HalfLineNotTight | reference/exact_binary64.py:530-541 | an addition with infinite endpoints whose result is not the tightest enclosure |
| WireFormat.HexCodec | reference/format.py:215-229 | writing and parsing hexadecimal words are inverse, on exactly the non-NaN words |
| WireFormat.HexDigitOrder | reference/format.py:215-229 | hexadecimal digits stand for 0 to 15 in their own order |
| WireFormat.LeadingHexDigit | reference/format.py:215-229 | the first hexadecimal digit weighs the greatest power of sixteen |
| WireFormat.NumericLeAgrees | reference/format.py:232-245 | the validator's order on encodings is the evaluator's endpoint order |
| WireFormat.ValidIsDecodable | reference/format.py:248-261 | a wire interval is valid exactly when it decodes, finite exactly when its endpoints are |
| WireFormat.EncodeDecode | reference/evaluator.py:36-46 | encoding always passes its own recheck and decodes to the same interval |
| WireFormat.ExpressionValidator.Validate | reference/format.py:264-323 | the validator with its shared counter accepts exactly well-formed nodes within depth and node limits |
| WireFormat.CostSaturates | reference/format.py:326-340 | the saturating cost is the exact cost cut off at one past the limit |
| WireFormat.CostBoundsWork | reference/format.py:326-340 | nodes and interval operations, powers counted by exponent, stay within the exact cost |
| WireFormat.CostIsNodeCount | reference/format.py:326-340 | without powers above the first the exact cost is the number of nodes |
| WireFormat.ValidateBatch | reference/format.py:343-386 | the batch validator accepts exactly valid batches |
| WireFormat.ValidateResult | reference/format.py:389-413 | the result validator accepts exactly results that match their batch |
| Evaluator.ProgramBuilder.Visit | reference/evaluator.py:49-87 | the visitor appends exactly the compiled subtree, or reports its fault |
| Evaluator.RunProgram | reference/evaluator.py:90-123 | the stack loop computes the run, with at most the program's work |
| Evaluator.CompilerCorrect | reference/evaluator.py:49-123 | from any stack and before any continuation, the compiled tree pushes the tree's value or stops with its fault |
| Evaluator.ProgramEvaluatesTree | reference/evaluator.py:49-123 | a whole program computes its tree |
| Evaluator.CompiledWork | reference/evaluator.py:49-123 | a program has one instruction a node and performs exactly the tree's operations |
| Certificates.RowsDecode | reference/evaluator.py:126-146 | a validated row decodes entry by entry, in order |
| Certificates.EvaluateBatchLoop | reference/evaluator.py:126-146 | the batch loop computes the batch within ten million interval operations |
| Certificates.AcceptedWork | reference/format.py:343-386 | an accepted batch's rows times work stays within the limit |
| Certificates.EvaluationTotal | reference/evaluator.py:90-123 | a valid tree fails only on a divisor that contains zero |
| Certificates.RowOutcome | reference/evaluator.py:126-146 | a row of an accepted batch gives that fault or an encoding that decodes to the tree's value |
| Certificates.BatchTotal | reference/evaluator.py:126-146 | an accepted batch evaluates exactly when no row meets such a divisor; no other failure exists |
| Certificates.CheckResult | reference/evaluator.py:156-173 | the result check accepts exactly the recomputed result of a valid batch |
| Certificates.CheckCertificate | reference/evaluator.py:176-183 | the certificate check accepts exactly when batch, digests and recomputed result agree |
| Certificates.OnlyIssuedAccepted | reference/evaluator.py:149-183 | a certificate is accepted exactly when it is the one issued for its batch |
| Certificates.TreeEncloses | reference/evaluator.py:90-123 | at any point, and any choice of reals in the constants, the exact value is defined and enclosed |
| Certificates.CertificateSound | reference/evaluator.py:149-183 | every row of an accepted certificate contains the exact value at every point of the row |
| Certificates.ProgramIsotone | reference/evaluator.py:90-123 | if a row is narrowed, the tree's value still exists and is narrowed |
| Certificates.RowIsotone | reference/evaluator.py:36-123 | the compiled run on a narrower encoded row succeeds with a narrower encoded result |
| Certificates.BatchIsotone | reference/evaluator.py:126-146 | an accepted batch with narrower rows evaluates, every result row inside the wider batch's |
| Mobius.DivisorSumIsUnit | reference/tg_cdem_abel.cpp:105-126 | Möbius inversion for the definition both sieves are proved against |
| Sieves.PartialMuIsMu | reference/tg_cdem_abel_chunk_replay.cpp:122-147 | the least-factor definition is the sign of the number of prime factors, zero for a square factor |
| Sieves.MarkMultiples | reference/tg_cdem_abel.cpp:116-125 | the inner loop marks exactly the numbers whose largest proper cofactor is i, with their Möbius values |
| Sieves.LinearSieve | reference/tg_cdem_abel.cpp:105-126 | the linear sieve leaves the Möbius function in its table |
| Sieves.SievePrime | reference/tg_cdem_abel_chunk_replay.cpp:130-145 | one prime flips, zeroes and strikes exactly its multiples and squares |
| Sieves.PrimeFactorSieve | reference/tg_cdem_abel_chunk_replay.cpp:124-147 | the flip-and-zero sieve leaves the same function in its table |
| Weights.CeilDivLeast | reference/tg_cdem_abel.cpp:76-78 | quotients rounded up and down are the least and greatest multipliers |
| Weights.LeastRootUnique | reference/tg_cdem_abel.cpp:80-94 | at most one q has q^2 n >= S^2 and (q-1)^2 n < S^2 |
| Weights.LeastRootFits | reference/tg_cdem_abel.cpp:83-94 | at and below the least root the product of the test fits 128 bits |
| Weights.WordsAreExact | reference/tg_cdem_abel.cpp:88-90 | where the product fits 128 bits, the test on words decides the exact inequality |
| Weights.CorrectedRoot | reference/tg_cdem_abel.cpp:83-94 | the two correction loops return the least root from any starting estimate that fits |
| Weights.SearchedRoot | reference/tg_cdem_abel_chunk_replay.cpp:105-120 | the binary search returns the same least root |
| AbelRecurrence.FloorSumIdentity | reference/tg_cdem_abel.cpp:198-234 | the state after n is the sum of mu(d) floor(n/d) over d <= K |
| AbelRecurrence.VanishingPrefix | reference/tg_cdem_abel.cpp:239-267 | up to K the state is 1 and nothing is added to any aggregate |
| AbelRecurrence.PartitionIsSerial | reference/tg_cdem_abel.cpp:220-280 | rows threaded from 0, each correct for its own incoming state, end in the serial state with the serial sums, for every partition |
| AbelRecurrence.PartitionStates | reference/tg_cdem_abel.cpp:231-234 | each such row enters and leaves with the serial state |
| AbelRecurrence.BlocksTile | reference/tg_cdem_abel.cpp:147-155 | the blocks cover [1, N] and each number lies in one block |
| AbelRecurrence.BlockInRange | reference/tg_cdem_abel.cpp:147-155 | block bounds are in range, adjacent, and end at N |
| StateBounds.MeanOfMu | reference/tg_cdem_abel.cpp:198-234 | the sum of mu(d)/d over d <= K stays in [-1, 1] |
| StateBounds.StateMoves | reference/tg_cdem_abel.cpp:220-234 | over any window the state moves by at most the window's length and K |
| StateBounds.StateOfOne | reference/tg_cdem_abel.cpp:229-234 | with K = 1 the state of the recurrence after n is n: the growth allowed by StateMoves is attained |
| VariationBounds.DeltaBelowWeights | reference/tg_cdem_abel.cpp:198-217 | a table entry is at most the number of divisors left over: those above K/2 for even n, above K/3 for odd multiples of 3, all otherwise |
| VariationBounds.ShareTotal | reference/tg_cdem_abel.cpp:198-217 | the densities of the numbers these divisors count add up to at most 98/25 for every K below 2^31 |
| VariationBounds.VariationWindow | reference/tg_cdem_abel.cpp:246-266 | a block's variation is at most 98/25 of its length and 7 K |
| AbelBounds.WeightSums | reference/tg_cdem_abel_chunk_replay.cpp:231-259 | over an addressable range the reciprocal weights sum to at most 64 S, the root weights to at most 3 2^32 S + 2^64 |
| AbelBounds.ScanFits | reference/tg_cdem_abel_chunk_replay.cpp:215-262 | at every point of a scan the state and accumulators fit their machine words |
| Strides.AddStrided | reference/tg_cdem_abel_chunk_replay.cpp:188-204 | the strided loop adds at exactly the multiples in range and never overflows an entry |
| Replayer.FillChunk | reference/tg_cdem_abel_chunk_replay.cpp:183-205 | the chunk fill leaves the truncated divisor sums |
| Replayer.Scan | reference/tg_cdem_abel_chunk_replay.cpp:207-262 | the checked scan returns the recurrence's aggregates and takes no overflow exit |
| Replayer.Replay | reference/tg_cdem_abel_chunk_replay.cpp:156-276 | the replay refuses exactly arguments out of range and otherwise reports the recurrence |
| Producer.MakeMobius | reference/tg_cdem_abel.cpp:105-145 | the table, the nonzero list and the four summaries are those of the Möbius function, the summaries within 64 and 128 bits |
| Producer.SummaryInWords | reference/tg_cdem_abel.cpp:96-103 | for every prefix of the table the summaries fit their words |
| SummaryLaws.MertensInversion | reference/tg_cdem_abel.cpp:128-131 | the Mertens values at K / k for k = 1 to K add up to 1, which determines all of them |
| SummaryLaws.MuOfSquareFree | reference/tg_cdem_abel.cpp:105-126 | the table is nonzero exactly at numbers no square above 1 divides |
| SummaryLaws.SquareFreeMass | reference/tg_cdem_abel.cpp:128-131 | the squarefree mass is the number of squarefree numbers up to K |
| Producer.FillBlock | reference/tg_cdem_abel.cpp:198-217 | a block's fill leaves divisor sums inside the block and touches nothing outside |
| Producer.FillAll | reference/tg_cdem_abel.cpp:197-218 | any order of blocks fills the table |
| Producer.SerialStateBound | reference/tg_cdem_abel.cpp:196-234 | for every table that can be addressed, every state fits 64 signed bits |
| Producer.Prefixes | reference/tg_cdem_abel.cpp:220-234 | the prefix pass gives every block the serial incoming state, in 64 signed bits |
| Producer.ScanBlock | reference/tg_cdem_abel.cpp:239-272 | a block scan returns the recurrence's aggregates within its machine words |
| Producer.BlockFitsWords | reference/tg_cdem_abel.cpp:239-272 | at every point of a block scan state, sums and variation fit their words |
| Producer.Reduce | reference/tg_cdem_abel.cpp:273-280 | the reduction writes one row for each block and its running totals fit their words |
| Producer.Compute | reference/tg_cdem_abel.cpp:190-284 | for every block size and block order, the rows thread from 0, replay, and total to the one serial pass; the endpoint weight is the least root at N + 1 |
| Producer.Produce | reference/tg_cdem_abel.cpp:165-284 | on all 64-bit arguments: refused exactly out of range, no table exactly when it cannot be addressed, and otherwise that production |
| AbelAccuracy.SignedAccuracy | reference/tg_cdem_abel.cpp:249-257 | the signed numerator is at least the scaled sum of increment(n)/n and exceeds it by at most the variation |
| AbelAccuracy.AbsoluteIsUpperBound | reference/tg_cdem_abel.cpp:258-264 | the absolute numerator is at least the sum of increment sizes times any numbers whose squares are at most S^2/n |
| AbelAccuracy.AbsoluteIsAccurate | reference/tg_cdem_abel.cpp:258-264 | and at most the sum with numbers whose squares are at least S^2/n, and the variation |
| AbelAccuracy.ReciprocalBracket | reference/tg_cdem_abel.cpp:128-143 | the two numerators bracket the scaled sum of mu(d)/d, their gap being exactly the squarefree d that do not divide the scale |
| Decimals.ToString | reference/tg_cdem_abel_artifact_terminal.cpp:237-246 | the digit loop prints the canonical decimal |
| Decimals.DigitOrder | reference/tg_cdem_abel_chunk_replay.cpp:39-80 | decimal digits stand for 0 to 9 in their own order |
| Decimals.LeadingDigit | reference/tg_cdem_abel_chunk_replay.cpp:39-80 | the first decimal digit weighs the greatest power of ten |
| Decimals.SignShown | reference/tg_cdem_abel_measured_workload.cpp:239-277 | the canonical magnitude is shown, with a minus sign in front exactly for negative numbers |
| Decimals.ToSignedString | reference/tg_cdem_abel_artifact_terminal.cpp:248-252 | likewise for signed numbers down to the least |
| Decimals.ParseUnsigned | reference/tg_cdem_abel_artifact_terminal.cpp:222-235 | the guarded loop accepts exactly canonical decimals up to the maximum |
| Decimals.GuardExact | reference/tg_cdem_abel_artifact_terminal.cpp:230 | the overflow guard fires exactly when the next value exceeds the maximum |
| Decimals.ParsedExactly | reference/tg_cdem_abel_measured_workload.cpp:239-252 | parsing gives a number exactly for that number's printed text in range |
| Decimals.ParseSigned128 | reference/tg_cdem_abel_measured_workload.cpp:254-267 | the signed parser accepts exactly canonical text in range, no negative zero |
| Decimals.ParseInt64 | reference/tg_cdem_abel_measured_workload.cpp:269-277 | the 64-bit parser does so for its range |
| Decimals.ParsedSignedExactly | reference/tg_cdem_abel_measured_workload.cpp:254-277 | signed parsing and printing are inverse, the least number included |
| Decimals.FromChars | reference/tg_cdem_abel_chunk_replay.cpp:46 | the library's digit matcher: the longest run of digits, a value exactly when it is nonempty and in range |
| Decimals.ParseUint64 | reference/tg_cdem_abel_chunk_replay.cpp:39-48 | the replayer's own parser accepts exactly canonical decimals below 2^64 |
| Decimals.ParseSignedArgument | reference/tg_cdem_abel_chunk_replay.cpp:50-62 | and its signed parser exactly canonical 64-bit numbers |
| ArtifactCodec.ReadsBack | reference/tg_cdem_abel_measured_workload.cpp:216-228 | little-endian bytes read back as the number written |
| ArtifactCodec.LittleEndianAt | reference/tg_cdem_abel_measured_workload.cpp:216-228 | byte i of the wire form is the digit of weight 256^i |
| ArtifactCodec.SignStands | reference/tg_cdem_abel_measured_workload.cpp:230-237 | the sign byte is 0 exactly for nonnegative numbers, and the magnitude follows |
| ArtifactCodec.Output.AppendNatural | reference/tg_cdem_abel_measured_workload.cpp:216-228 | the byte loop appends the number's little-endian form |
| ArtifactCodec.Output.AppendInteger256 | reference/tg_cdem_abel_measured_workload.cpp:230-237 | appends sign and magnitude without negating the least number |
| ArtifactCodec.ReadNatural128 | reference/tg_cdem_abel_artifact_terminal.cpp:271-284 | reads exactly what the writer wrote: truncation and nonzero padding are refused, nothing else |
| ArtifactCodec.ReadNatural64 | reference/tg_cdem_abel_artifact_terminal.cpp:286-292 | likewise for 64-bit numbers |
| ArtifactCodec.ReadInteger128 | reference/tg_cdem_abel_artifact_terminal.cpp:294-309 | likewise for signed numbers: unknown signs and negative zero are refused, the least number is read |
| ArtifactCodec.ReadInteger64 | reference/tg_cdem_abel_artifact_terminal.cpp:311-318 | likewise for signed 64-bit numbers |
| ArtifactCodec.ReadU32 | reference/tg_cdem_abel_artifact_terminal.cpp:320-330 | reads the four-byte count |
| ArtifactFrame.PreambleAt | reference/tg_cdem_abel_artifact_terminal.cpp:342-365 | header, signed target, absolute target and row count stand at their offsets |
| ArtifactFrame.RowAt | reference/tg_cdem_abel_measured_workload.cpp:412-433 | a row's low, high, before, after, signed and absolute totals stand at offsets 0, 32, 64, 97, 130 and 163 |
| ArtifactFrame.WriteArtifact | reference/tg_cdem_abel_measured_workload.cpp:412-433 | the writer emits exactly the frame of its rows |
| ArtifactFrame.CheckPreamble | reference/tg_cdem_abel_artifact_terminal.cpp:343-357 | length, header, targets and count pass exactly when the bytes begin with the writer's preamble |
| ArtifactFrame.CheckRow | reference/tg_cdem_abel_artifact_terminal.cpp:383-392 | the row checks pass exactly when the row continues grid, state and totals |
| ArtifactFrame.ParseArtifact | reference/tg_cdem_abel_artifact_terminal.cpp:342-410 | the parser returns a table exactly when the bytes are that acceptable table's frame |
| ArtifactFrame.ArtifactUnique | reference/tg_cdem_abel_artifact_terminal.cpp:342-410 | no frame belongs to two acceptable tables |
| ArtifactFrame.EmptyRowAccepted | reference/tg_cdem_abel_artifact_terminal.cpp:383-406 | a table padded with an empty row, leaving any state, is acceptable for one row more |
| ArtifactFrame.RowsNonempty | reference/tg_cdem_abel_artifact_terminal.cpp:383-402 | an acceptable table has only nonempty rows exactly when its row count is the block count |
| ReplayText.TextDeterminesNumbers | reference/tg_cdem_abel_artifact_terminal.cpp:412-424 | equal replay texts carry equal numbers |
| ReplayText.VariationLocated | reference/tg_cdem_abel_chunk_replay.cpp:265-275 | in a replay's text the variation marker occurs once, followed by the variation's digits |
| ReplayText.ReplayStates | reference/tg_cdem_abel_chunk_replay.cpp:264-276 | under each key exactly one line of the output stands, with that number |
| ReplayText.ExpectedIsPrinted | reference/tg_cdem_abel_artifact_terminal.cpp:412-425 | the text the terminal concatenates is the replayer's sequence of lines |
| ReplayText.ValidateReplay | reference/tg_cdem_abel_artifact_terminal.cpp:426-447 | a replay passes with a variation exactly when stderr is empty and the text is this row's with it |
| Terminal.ArgumentsArrive | reference/tg_cdem_abel_chunk_replay.cpp:161-168 | numbers printed as arguments reach the replayer unchanged |
| Terminal.RunReplayer | reference/tg_cdem_abel_chunk_replay.cpp:156-276 | for parseable arguments in range the output states every number of the recurrence's replay on the line of its key, and otherwise the program fails |
| Terminal.ReplayRow | reference/tg_cdem_abel_artifact_terminal.cpp:665-682 | a row's replay passes with a variation exactly when the row is what the recurrence gives |
| Terminal.ReadReplayObservations | reference/tg_cdem_abel_artifact_terminal.cpp:554-576 | the retained replays pass exactly when stderr is empty, each text is its row's and the variations add up |
| Terminal.AcceptanceIsRecurrence | reference/tg_cdem_abel_artifact_terminal.cpp:342-447 | accepted rows that replay have the true states, and the serial recurrence has the target state and totals |
| Terminal.RecurrenceIsAccepted | reference/tg_cdem_abel_artifact_terminal.cpp:342-410 | conversely the true table with true targets is acceptable |
| Completeness.ProducedIsAccepted | reference/tg_cdem_abel_artifact_terminal.cpp:342-447 | the producer's rows, for targets equal to its totals, form an acceptable artifact whose every row replays and whose variations add up |
| Completeness.PrintedRowIsLine | reference/tg_cdem_abel.cpp:283-301 | the row the producer prints is the line the workload reads |
| Completeness.ProducedIsPublished | reference/tg_cdem_abel_measured_workload.cpp:653-713 | for true targets the producer's lines pass, both pools can succeed, and the artifact and replays meet everything publication needs |
| Transcript.Split | reference/tg_cdem_abel_measured_workload.cpp:279-291 | splitting undoes joining |
| Transcript.ParseLine | reference/tg_cdem_abel_measured_workload.cpp:369-381 | a chunk row parses exactly when it is the canonical text of numbers in range |
| Transcript.ValidateChunks | reference/tg_cdem_abel_measured_workload.cpp:357-407 | chunk rows pass exactly when they list an acceptable table whose variations add up |
| Transcript.WriteAndParse | reference/tg_cdem_abel_measured_workload.cpp:412-433 | what the workload writes from passing rows, the terminal parses back to the same table |
| WorkerPool.StepKeepsInvariant | reference/tg_cdem_abel_artifact_terminal.cpp:663-692 | every atomic action keeps ownership exclusive, claimed rows covered and failures accounted for |
| WorkerPool.NoIndexTwice | reference/tg_cdem_abel_artifact_terminal.cpp:659-692 | under every interleaving no row is held or replayed twice, and the counter stays within rows plus workers |
| WorkerPool.EveryRowOnce | reference/tg_cdem_abel_artifact_terminal.cpp:693-699 | after all workers join with the flag down, every row was replayed exactly once and is valid |
| WorkerPool.SuccessPossible | reference/tg_cdem_abel_artifact_terminal.cpp:659-712 | if all rows are valid, any number of workers can join with the flag down |
| WorkerPool.FlagStopsPool | reference/tg_cdem_abel_artifact_terminal.cpp:664-692 | once the flag is up it stays up, and at most one more replay for each worker finishes |
| WorkerPool.InterleavingsEnd | reference/tg_cdem_abel_measured_workload.cpp:669-701 | every interleaving ends within five actions a row and seven a worker |
| WorkerPool.StuckMeansJoined | reference/tg_cdem_abel_measured_workload.cpp:669-701 | a pool in which nobody can act has joined |
| Publication.PublishedMeansRecurrence | reference/tg_cdem_abel_artifact_terminal.cpp:646-712 | publication implies that the recurrence over [1, N] has exactly the published state and totals |
| Publication.PublicationPossible | reference/tg_cdem_abel_artifact_terminal.cpp:646-712 | for an acceptable table of true rows some run meets everything publication needs |
| Publication.WorkloadPublishedMeansRecurrence | reference/tg_cdem_abel_measured_workload.cpp:662-713 | the workload's publication implies the same, and an artifact the terminal parses back to the same rows |
| Publication.WorkloadPublicationPossible | reference/tg_cdem_abel_measured_workload.cpp:662-713 | and for true chunk rows that pass some run of the workload's pool succeeds |
| Journal.NoStageTwice | azure/cpu_production_orchestrator.py:191-260 | a derivable journal never revisits a stage and has at most seventeen events |
| Journal.NoGateSkipped | azure/cpu_production_orchestrator.py:191-260 | a campaign past a recorded stage has an event that reached it |
| Journal.DigestPinsJournal | azure/cpu_production_orchestrator.py:1107-1141 | with a collision-free hash, equal last digests mean equal journals |
| Journal.RecordsOfEvents | azure/cpu_production_orchestrator.py:1095-1152 | in a derivable journal events are well formed, no record name is used twice, and the records on file are exactly the events' |
| Journal.EarlyRecords | azure/cpu_production_orchestrator.py:1127-1139 | the records on file after deployment, challenge and worker stage |
| Journal.LateRecords | azure/cpu_production_orchestrator.py:1127-1139 | and those that package, appraisal, receipt and review add |
| Journal.NamesStep | azure/cpu_production_orchestrator.py:1127-1139 | a transition's record is exactly the new gate's name |
| Journal.WriteKeepsSafe | azure/cpu_production_orchestrator.py:1155-1239 | every atomic write keeps the disk safe: head current, or one event behind, and records exactly the gates passed |
| Journal.HistorySafe | azure/cpu_production_orchestrator.py:1155-1239 | after any history of writes, stopped anywhere, the disk is safe and the journal has only grown |
| Journal.RecoveryRestores | azure/cpu_production_orchestrator.py:1192-1197 | after a crash between event and head, recovery yields the disk of the uncrashed run |
| Operator.CommandsAllowed | azure/cpu_production_orchestrator.py:191-260 | every transition a command attempts is in the declared relation |
| Operator.LongestJournal | azure/cpu_production_orchestrator.py:191-260 | seventeen events are attained, by a journal that files every record |
| Operator.RecordFresh | azure/cpu_production_orchestrator.py:1215-1217 | a stage's record name is never on file before the stage |
| Operator.TransitionEffect | azure/cpu_production_orchestrator.py:1200-1239 | a completed transition advances one stage by an event with this time and record; a crashed one lags and recovers to it |
| Operator.HandlerEffect | azure/cpu_production_orchestrator.py:1695-1706 | the exception handler records a failure exactly if the end was not recorded first |
| Operator.Orchestrator.DeriveState | azure/cpu_production_orchestrator.py:1095-1152 | the fold over the journal computes its derivation |
| Operator.Orchestrator.LoadState | azure/cpu_production_orchestrator.py:1181-1189 | the head is returned exactly when it equals the derivation |
| Operator.Orchestrator.InitializeState | azure/cpu_production_orchestrator.py:1155-1178 | creates event 0 and the head on a blank disk only, and answers exactly when both are written; its crashes strand the directory or lag |
| Operator.Orchestrator.RecoverStateHead | azure/cpu_production_orchestrator.py:1192-1197 | makes the head current whenever there is an event, the journal untouched |
| Operator.Orchestrator.Transition | azure/cpu_production_orchestrator.py:1200-1239 | refuses a lagging head, a wrong stage or a malformed digest without a write, and otherwise writes the next event and head |
| Operator.Orchestrator.Run | azure/cpu_production_orchestrator.py:1665-1705 | a bracketed command acts only from its start with a current head, is repeated without a write at its end, refuses elsewhere, and adds exactly the stages of its trace |
| Operator.Orchestrator.Adopt | azure/cpu_production_orchestrator.py:1708-1729 | a reconciliation or acknowledgement acts only from its stage and adds exactly its event; acknowledging again is answered without a write |

## Left out

- File, process and descriptor handling, JSON text, and the canonical-size limit: typed values come in, atomic writes go out.
- SHA-256: a function parameter; injectivity is a hypothesis of Journal.DigestPinsJournal only.
- Error messages: an error is the absence of a result, or a named fault in the Python evaluator.
- Trace digests (`computeTrace`, `traceJson`, row offsets), key-value parsing of the transcript, its fixed fields, its chunk-manifest digest, and the worker-written replay manifest.
- Command lines of the producer and the terminal, and the literal production constants: `Profile` carries them as parameters.
- WireFormat.DecodeInterval: reads only sixteen lowercase hexadecimal digits; Python's `int` takes more spellings, but the evaluator decodes validated text only.
- Producer.Produce: of allocation only the address space is modelled; a smaller machine refuses smaller tables. The scales are parameters (up to 2^60 for the weights, 2^120 for the coefficients), 10^18 and 10^30 in production.
- Weights.CorrectedRoot: the floating-point starting estimate is an arbitrary number whose product fits 128 bits.
- OpenMP scheduling: blocks are taken in an arbitrary order, one at a time; they write disjoint ranges.
- WorkerPool: a worker's child process is one action; its valid rows may still fail.
- Operator: the commands' own inspections (deployment results, challenges, packages, appraisals, receipts, review sources) are a flag, the child an outcome and a digest; the operator lock is assumed, so commands do not overlap.
- Operator: stray temporary files after a crash inside one atomic write.
- The H100 orchestrator, attestation tools, GPU and MPFR programs.
