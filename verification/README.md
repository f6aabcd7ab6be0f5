# A model of the scout

The scout watches Solana liquidity pools, quotes swaps on them without sending anything, and afterwards looks
for evidence of whether the routes it found were taken by others. This project models the parts whose
correctness is hard to see from the code, each in its own module, and proves what the code and its
documentation promise of them.

* **Meteora quotes** (`MeteoraTypes`, `MeteoraMath`, `MeteoraFill`, `MeteoraAddressing`, `DirectionalSearch`,
  `MeteoraTraversal`, `MeteoraFees`, `MeteoraWalk`, `MeteoraFailure`, `MeteoraMonotonicity`, `MeteoraTrap`,
  `MeteoraPrice`, `MeteoraSnapshot`): the exact-input engine, from rounded prices, fee rates and the layered fill
  of a bin through the directional bitmap search to the nested traversal. `MeteoraFees` fixes what a bin pays and
  charges by tokens and bounds. The main theorems are `FillBinExactInIs`, `TraversalIsSound`,
  `TraversalFailsAtABin`, `MonotoneExactlyUnlessTrapping` and `PriceNearRealPower`.
* **Which bin arrays to load** (`HydrationPlan`, `BinArraySelector`, `AccountPlan`, `PlanMeaning`): three
  enumerations of the initialized arrays that have to agree with the traversal. All four are shown to follow the
  same run. `PlanMeaning` says what the account plan means in addresses.
* **Transactions** (`V0Accounts`, `V0Message`, `V0Compiler`, `V0Meaning`): the compiler from planned accounts to a
  v0 message. `CompilePreservesMeaning` reads the bytes back with an independent decoder and key resolver.
* **PumpSwap quotes** (`PumpSwap`): the budget search, the curve and its reverse.
* **The R13 evidence run** (`R13Plan`, `R13History`, `R13Acquisition`, `R13Matching`, `R13Search`, `R13Maturity`,
  `R13Log`, `R13Writer`, `R13Run`, `R13Meaning`): paged histories of an append-only ledger, union windows,
  intersection, matching, verdicts, and the log with its own replay. `VerdictsAreSound`, `AcceptedExactly` and `WriteArtifact`
  are the main theorems; `R13Meaning` shows that a compiled swap, once recorded, is read back as its plan.
* **Decoders and costs** (`OrcaTickArray`, `TokenExtensions`, `Costs`, `DecimalSol`).
* **Shared** (`Wrappers`, `Machine`, `Arithmetic`, `Sequences`, `Strings`, `Bytes`).

Loops and objects of the program are methods, with a loop or a class of the same form, and each is proved
against a function; lemmas then state what the function means. Machine integers are subsets of `int`
(`Machine`), and every overflow test of the program is written out.

Points where the code decides what holds:

* Quote monotonicity is false of some pools: where a unit of input passes a charging bin unused and then meets a
  free one, it can buy more than two units. For a pool header, a time and a direction,
  `MonotoneExactlyUnlessTrapping` says which: those with a fee on the input; no base fee; positive fee control, bin
  step and maximum volatility; a volatility reference updated to zero; an updated index reference strictly ahead of
  the active bin, both inside the protocol range; and fees that can be paid out, that is, limit orders supported or
  a protocol share below 20000 basis points. All other pools quote monotonically over all liquidity.
* The error bound of the Q64 power holds for every base, not only from one upward.
* An absence verdict treats a transaction whose `meta.err` is absent like a failed one, so the theorem speaks of
  transactions whose `meta.err` is present and null.
* Inner instruction groups that repeat an outer index replace one another; "the instruction at a coordinate" means
  the one the last such group records.

What the chain is taken to do, as hypotheses of the R13 theorems: an address's ledger is listed newest first,
each signature once; it only grows, and once a tip is confirmed only above it; answers show the ledger as it
stood at some moment (`R13History.Truthful`, `R13Search.Reliable`).

## Model

| member | source | states |
|---|---|---|
| MeteoraMath.AmountOutIsFloor | crates/scout-cli/src/meteora.rs:382-420 | An input converted at the bin price and rounded down is the largest output its exact value covers, or an overflow when that does not fit 64 bits. |
| MeteoraMath.AmountInIsCeil | crates/scout-cli/src/meteora.rs:382-435 | An output converted back and rounded up is the least input whose exact value covers it, or an overflow. |
| MeteoraMath.VariableRateExists | crates/scout-cli/src/meteora.rs:465-488 | The volatility fee rate fits 128 bits for every pool and every accumulator. |
| MeteoraMath.ZeroRate | crates/scout-cli/src/meteora.rs:453-499 | The total rate is zero exactly when the base rate is, and the volatility, the bin step or the fee control is zero. |
| MeteoraMath.FeesAreExact | crates/scout-cli/src/meteora.rs:501-542 | With a valid rate neither checked fee can fail, and the two fees are the two roundings named net and gross. |
| MeteoraMath.FeeDirectionsAdjoint | crates/scout-cli/src/meteora.rs:501-542 | Galois pair of the fee directions: net(g) >= n exactly when gross(n) <= g, so gross(n) is the least amount that leaves n. |
| MeteoraMath.NetOfGross | crates/scout-cli/src/meteora.rs:501-542 | net(gross(n)) = n, and gross is strictly increasing. |
| MeteoraMath.NetIsZero | crates/scout-cli/src/meteora.rs:526-542 | Nothing is left after the fee exactly for zero, or for one unit under a positive rate (the dust case). |
| MeteoraFill.FillLayerSound | crates/scout-cli/src/meteora.rs:833-866 | A layer fill conserves the input and pays at most the layer; leftover input means the layer was emptied. |
| MeteoraFill.PartialLayerPaysLess | crates/scout-cli/src/meteora.rs:833-866 | An input short of the layer's full price pays strictly less than the layer holds. |
| MeteoraFill.FillLayerFailsIndependently | crates/scout-cli/src/meteora.rs:833-866 | Whether a layer can be filled at all depends on its own full price alone, not on the input offered. |
| MeteoraFill.FillAtBinSound | crates/scout-cli/src/meteora.rs:654-768 | The three-layer fill conserves the input, pays no more than market-maker, processed and open amounts together, and leaves input over only when every layer is empty. |
| MeteoraFill.FillAtBinWithinPrice | crates/scout-cli/src/meteora.rs:696-768 | The output summed over the layers never beats the bin price. |
| MeteoraFill.FillAtBinMono | crates/scout-cli/src/meteora.rs:696-768 | More input takes and pays at least as much; two fills that both leave input over are equal. |
| MeteoraFill.FeeSplitPartitions | crates/scout-cli/src/meteora.rs:770-831 | User fee plus protocol fee is the trading fee, and the split succeeds, whenever the protocol share is at most 10000. |
| MeteoraFill.ChargeInputNeverOverdraws | crates/scout-cli/src/meteora_m8.rs:349-384 | A drained bin charges strictly less than the remaining input, so the guard against overdrawing is unreachable; otherwise exactly the remaining input is charged. |
| MeteoraFill.FillBinExactInSound | crates/scout-cli/src/meteora_m8.rs:331-431 | One bin never consumes more than is left, fees nest, and input is left over only behind an emptied bin or as one unit of dust. |
| MeteoraFill.FillBinExactInMono | crates/scout-cli/src/meteora_m8.rs:331-431 | The walker with more input is paid at least as much at the same bin, and both are charged the same for a bin the smaller one passes. |
| MeteoraAddressing.ArrayIndexIsFloor | crates/scout-cli/src/meteora.rs:945-959 | The truncating division with its correction is floor division, for negative bin ids too. |
| MeteoraAddressing.BinAddressBijective | crates/scout-cli/src/meteora.rs:945-986 | Bin ids correspond one to one to pairs of array index and offset 0..69. |
| MeteoraAddressing.BitAddressBijective | crates/scout-cli/src/meteora.rs:988-1035 | Every array index from -6656 to 6655 has exactly one address of region, chunk, word and bit. |
| MeteoraAddressing.BitmapReadsItsAddress | crates/scout-cli/src/meteora.rs:1019-1035 | Reading an index reads exactly the bit at its address, or asks for the missing extension. |
| MeteoraAddressing.BitmapReadable | crates/scout-cli/src/meteora.rs:1238-1294 | An index cannot be read exactly when it lies in a missing extension. |
| DirectionalSearch.SearchInitialized | crates/scout-cli/src/meteora.rs:1037-1064 | The search loop computes the recursive search function. |
| DirectionalSearch.NextInitializedIsNearest | crates/scout-cli/src/meteora.rs:1037-1064 | The search returns the nearest set index, finds none only if the rest of the range is clear, and fails exactly at the first unreadable index. |
| DirectionalSearch.NextInitializedIff | crates/scout-cli/src/meteora.rs:1037-1064 | An index is returned if and only if it is the nearest set one in the direction. |
| DirectionalSearch.RunAdvances | crates/scout-cli/src/meteora.rs:1037-1064 | Repeating the search from behind each find moves strictly in the swap direction and never repeats an index. |
| DirectionalSearch.RunIsComplete | crates/scout-cli/src/meteora.rs:1037-1064 | Such a run misses no initialized index it passes. |
| DirectionalSearch.RunsAgree | crates/scout-cli/src/meteora_m9.rs:76-141 | Two runs from the same place agree as far as the shorter one goes, which is what ties traversal, plan and selector together. |
| MeteoraTraversal.TraverseBins | crates/scout-cli/src/meteora_m8.rs:232-325 | The loop over the bins of one array computes the recursive walk. |
| MeteoraTraversal.TraverseArrays | crates/scout-cli/src/meteora_m8.rs:153-328 | The loop over initialized arrays, with its nested bin loop, terminates and computes the recursive walk. |
| MeteoraTraversal.TraverseExactIn | crates/scout-cli/src/meteora_m8.rs:88-329 | The whole traversal with its early exits refines the function the theorems are about. |
| MeteoraFees.VariableRateIsQuadratic | crates/scout-cli/src/meteora.rs:465-488 | The volatility rate is the fee control times the square of accumulator times bin step, over 10^11 and rounded up, for every pool. |
| MeteoraFees.TotalRateIsCappedSum | crates/scout-cli/src/meteora.rs:453-499 | The total rate is ten times base factor, bin step and power of ten, plus the volatility rate, but at most ten percent; it overflows exactly past 128 bits. |
| MeteoraFees.ReferenceIs | crates/scout-cli/src/meteora.rs:557-588 | The volatility reference is kept before the filter period, decayed by the reduction factor up to the decay period, zero after; the reference bin is kept or is the active one. |
| MeteoraFees.AccumulatorIs | crates/scout-cli/src/meteora.rs:590-614 | The accumulator is the reference plus ten thousand per bin of distance, up to the maximum. |
| MeteoraFees.RateIs | crates/scout-cli/src/meteora.rs:453-614 | The rate charged at a bin, by reference and distance alone. |
| MeteoraFees.FeeTokenIs | crates/scout-cli/src/meteora.rs:616-632 | Collect mode 0 takes the fee in the token sold, mode 1 in Y, and no other mode is served. |
| MeteoraFees.StocksAre | crates/scout-cli/src/meteora.rs:654-672 | A swap takes market-maker stock of the token it buys, and orders exactly of the side that sells that token. |
| MeteoraFees.FillLayerIs | crates/scout-cli/src/meteora.rs:833-866 | A layer is filled exactly so: whole for the least covering input, or all of a smaller input for its value rounded down; it fails only if its whole price exceeds 64 bits. |
| MeteoraFees.FillAtBinIs | crates/scout-cli/src/meteora.rs:696-768 | A bin pays exactly through its three layers in order, each offered what the one before left and priced once it is reached. |
| MeteoraFees.SplitFeeShares | crates/scout-cli/src/meteora.rs:770-831 | The market makers' part of the fee is proportional, rounded up; the protocol gets its share of that part and half of the rest, rounded up; the users get what remains; the split fails exactly if that is negative. |
| MeteoraFees.FillBinExactInIs | crates/scout-cli/src/meteora_m8.rs:331-431 | A bin's account exists exactly when the program succeeds, and is the one determined by its layers, the rate and the shares: the fee is the rounded-up fee on the charged input, or on the output. |
| MeteoraWalk.SwapIs | crates/scout-cli/src/meteora_m8.rs:88-97 | The parameters of a traversal: volatility reference and fee token, read off header and time. |
| MeteoraWalk.RateByDistance | crates/scout-cli/src/meteora_m8.rs:252-268 | The rate charged at a visited bin is the rate of its distance from the reference bin. |
| MeteoraWalk.WalkBinsAccounted | crates/scout-cli/src/meteora_m8.rs:232-325 | Along the bins of an array each touched bin has one visit: offered what the bin before left, with the account its liquidity, rate and shares determine, and passing input on only when emptied or when a single unit would go whole into its fee; the visits sum to the output and both fees. The touched bins are a contiguous stretch. |
| MeteoraWalk.WalkArraysSound | crates/scout-cli/src/meteora_m8.rs:153-328 | The outer loop keeps to the initialized run, keeps the account of one visit per bin, and reports the reason that holds where it stops. |
| MeteoraWalk.TraversalIsSound | crates/scout-cli/src/meteora_m8.rs:88-468 | Every successful traversal: input and fees are conserved; touched arrays are exactly the consecutive initialized arrays from the active one; touched bins are contiguous, with one itemized visit each whose payments and fees sum to the result; it ends at the last touched bin with the volatility there; input remains unless the request was fully consumed; each reported reason holds; SearchRangeExceeded is never reported. |
| MeteoraWalk.LeftoverMeansUsedUp | crates/scout-cli/src/meteora_m8.rs:232-325 | From the visits: where input remains, the output is the whole capacity of the first k bins, and any bins after them can pay nothing for the single unit that is left. |
| MeteoraWalk.TraversalEmptiesItsBins | crates/scout-cli/src/meteora_m8.rs:88-468 | Every successful traversal: with input left, the first k bins are emptied and the rest, if any, are empty or charge the one unit left; fully consumed, that holds of the bins before the last and the last one paid the rest. |
| MeteoraFailure.TraversalFailsAtABin | crates/scout-cli/src/meteora_m8.rs:88-431 | A quote of a positive amount fails only at a bin it reaches with input left, where no account of the bin keeps the totals within 64 bits. |
| MeteoraFailure.QuoteWithoutWalk | crates/scout-cli/src/meteora_m8.rs:95-150 | Without a walk: the error of the parameters, nothing for nothing, or everything unspent with the active bin out of range. |
| MeteoraMonotonicity.FreeExactlyAt | crates/scout-cli/src/meteora.rs:453-499 | A bin is free of fees exactly without a base fee and either without weight on volatility or, with reference zero, at the updated index reference. |
| MeteoraMonotonicity.QuoteMonotone | crates/scout-cli/src/meteora_m8.rs:88-430 | Over two whole runs on one snapshot, in both directions and fee modes, a larger quotable input never returns less, unless the header traps a last unit. |
| MeteoraTrap.MonotoneExactlyUnlessTrapping | crates/scout-cli/src/meteora_m8.rs:88-430 | For a pool header, time and direction: all quotable pairs of inputs are monotone over every acceptable filling of bins, bitmap and extension if and only if the header does not trap a last unit. |
| MeteoraTrap.TrapBreaksMonotonicity | crates/scout-cli/src/meteora_m8.rs:88-430 | Under every trapping header a poor active bin and a rich bin at the index reference pay four units for one and one unit for two. |
| MeteoraTrap.UnsteadyFeesBreakMonotonicity | crates/scout-cli/src/meteora_m8.rs:88-430 | A concrete acceptable snapshot with a volatility fee only pays four units for an input of one and one unit for an input of two. |
| MeteoraPrice.SquareAndMultiply | crates/scout-cli/src/meteora.rs:892-943 | The repeated-squaring loop never overflows and computes the truncated power. |
| MeteoraPrice.Q64Pow | crates/scout-cli/src/meteora.rs:892-943 | The power for every base and exponent, with its two error cases and its inversion rule. |
| MeteoraPrice.PowerErrorBound | crates/scout-cli/src/meteora.rs:892-943 | Before the final inversion the result is at most the exact real power of the reduced base and short of it by at most the exponent in units of the last place. |
| MeteoraPrice.PriceFromBinId | crates/scout-cli/src/meteora.rs:437-451 | The price of a bin is the power of its step base. |
| MeteoraPrice.PriceNearRealPower | crates/scout-cli/src/meteora.rs:437-451 | The price of a bin below zero lies within twice its distance, in units of 2^-64, of the real power of one plus the bin step. |
| MeteoraPrice.OppositePricesReciprocal | crates/scout-cli/src/meteora.rs:437-451 | Prices of opposite bins exist together and are reciprocal up to one rounding. |
| MeteoraSnapshot.NewSnapshot | crates/scout-cli/src/meteora.rs:257-316 | A snapshot is accepted exactly if the extension is the pool's own and the arrays are complete, canonical and of distinct index. |
| HydrationPlan.BuildPlan | crates/scout-cli/src/meteora_m9.rs:76-141 | The planning loop computes the plan function. |
| HydrationPlan.ExpansionIsRun | crates/scout-cli/src/meteora_m9.rs:43-141 | Expansion succeeds exactly on a newer generation in which the missing index is still reached, and then lists exactly the initialized arrays up to it. |
| HydrationPlan.InitialPlanIsFirst | crates/scout-cli/src/meteora_m9.rs:36-141 | The initial plan is the first initialized array of the direction, or empty if there is none. |
| HydrationPlan.ExpansionAgreesWithTraversal | crates/scout-cli/src/meteora_m9.rs:43-141 | If a traversal stops at a missing array, expanding on a newer snapshot with the same view succeeds and lists the touched arrays followed by the missing one. |
| BinArraySelector.SelectDirection | crates/scout-cli/src/meteora_runtime.rs:435-497 | One direction of the selector computes its selection function, stopping where no bitmap reaches and failing on any other unreadable bit. |
| BinArraySelector.SearchNeverFails | crates/scout-cli/src/meteora_runtime.rs:445-497 | The search failure cannot occur: from any index of the protocol range the loop ends with the initialized arrays it meets, up to the first one in a missing extension. |
| BinArraySelector.SelectBinArrays | crates/scout-cli/src/meteora_runtime.rs:424-503 | The selector loops compute the selection function. |
| BinArraySelector.SelectionIsFirstThree | crates/scout-cli/src/meteora_runtime.rs:424-503 | In each direction the first three initialized arrays are taken, fewer only if the run ends, and their addresses are returned once each. |
| BinArraySelector.SelectionAdequate | crates/scout-cli/src/meteora_runtime.rs:424-503 | On a snapshot hydrated with the selection, a traversal reports a missing array only after touching exactly three. |
| AccountPlan.BuildRemainingAccounts | crates/scout-cli/src/meteora_m11.rs:293-386 | The loops and checks compute the remaining-accounts function, the order check on the finished list included. |
| AccountPlan.RequiredOrderHolds | crates/scout-cli/src/meteora_m11.rs:332-386 | For any snapshot, plan and selection, the final order check never refuses a list that passed the checks before it. |
| AccountPlan.PlanFitsQuote | crates/scout-cli/src/meteora_m11.rs:293-395 | For a quote and a plan of one snapshot the account list is built exactly when the touched arrays and buffers open the plan and the buffers are hydrated; without buffers only the length check can fail. |
| AccountPlan.ValidateDuplicates | crates/scout-cli/src/meteora_m11.rs:397-457 | Duplicate accounts are accepted exactly when every equal pair is one of the intended ones. |
| AccountPlan.ContentionAccounts | crates/scout-cli/src/meteora_m11.rs:459-475 | The contention set lists every contended account once and nothing else. |
| AccountPlan.FullFillIsTermination | crates/scout-cli/src/meteora_m8.rs:35-86 | For the engine's own quotes the full-fill check passes exactly when the termination says that the input was consumed; otherwise its error names what was missing. |
| AccountPlan.PlanExecution | crates/scout-cli/src/meteora_m11.rs:91-159 | An execution plan is made exactly when fill, generation, provided accounts, remaining accounts and duplicates all pass, and then holds them. |
| PlanMeaning.FixedAccountsStand | crates/scout-cli/src/meteora_m11.rs:161-291 | The sixteen fixed accounts stand in the official order, each with the address, origin and flags of its kind. |
| PlanMeaning.RemainingAreArrays | crates/scout-cli/src/meteora_m11.rs:332-364 | Behind them stand writable bin arrays only. |
| PlanMeaning.DuplicatesByPlace | crates/scout-cli/src/meteora_m11.rs:397-457 | A plan passes the duplicate check exactly when all addresses differ, except the two token programs and the places where the program itself stands in. |
| PlanMeaning.ContentionByAddress | crates/scout-cli/src/meteora_m11.rs:459-475 | The swap contends for exactly the pool, its extension and reserves, the user's two token accounts, the oracle and the bin arrays. |
| PlanMeaning.ProvidedAccepted | crates/scout-cli/src/meteora_m11.rs:136-159 | Provided accounts pass exactly when mints, reserves and user accounts differ in pairs and both token programs are known ones. |
| V0Accounts.CollectUnique | crates/scout-cli/src/meteora_m12.rs:340-363 | Merging in place, entry by entry, computes the merge function. |
| V0Accounts.UniqueAccountsMerged | crates/scout-cli/src/meteora_m12.rs:340-375 | Each key appears once, and its signer, writable and invoked flags are the disjunction over all its mentions, the fee payer counting as both. |
| V0Compiler.ApplyLookupTable | crates/scout-cli/src/meteora_m12.rs:391-454 | The loop over the canonical accounts computes the lookup function; a table that is too long or lists a key twice is refused. |
| V0Meaning.LookupLoadsEverything | crates/scout-cli/src/meteora_m12.rs:391-454 | A static key that the table lists signs or is invoked by some planned account; the keys loaded from the table are exactly the other listed ones, writable ones first. |
| V0Compiler.PlannedShape | crates/scout-cli/src/meteora_m12.rs:277-338 | Every plan the account planner builds has the shape the compiler demands. |
| V0Meaning.ShapeIsOfficial | crates/scout-cli/src/meteora_m12.rs:277-338 | The demanded shape is the official order of kinds, with a signing user, the official writable accounts, and only writable bin arrays behind them. |
| V0Compiler.SerializeMessage | crates/scout-cli/src/meteora_m12.rs:498-543 | The bytes appended section by section are the encoding of the message. |
| V0Compiler.Compile | crates/scout-cli/src/meteora_m12.rs:75-174 | Only plans of the demanded shape and size compile, and only with a valid table. |
| V0Compiler.CompileSwap2 | crates/scout-cli/src/meteora_m12.rs:75-174 | The compiler method succeeds exactly when the compile function does, with the same result. |
| V0Message.AppendShortvec | crates/scout-cli/src/meteora_m12.rs:573-585 | The length loop writes the compact-u16 form. |
| V0Message.DecodeEncode | crates/scout-cli/src/meteora_m12.rs:498-543 | An independent decoder reads every field of the message back from the written bytes. |
| V0Meaning.Swap2DataMeaning | crates/scout-cli/src/meteora_m10.rs:5-17 | The instruction data decodes to the two amounts. |
| V0Meaning.ResolutionMeaning | crates/scout-cli/src/meteora_m12.rs:391-483 | Static keys, loaded writable and loaded readonly keys resolve, from header counts and table alone, to the merged accounts with their privileges. |
| V0Meaning.UserFirst | crates/scout-cli/src/meteora_m12.rs:340-389 | The user stands first, signs alone and is writable. |
| V0Meaning.ProgramEntry | crates/scout-cli/src/meteora_m12.rs:391-454 | The invoked program is a static key, with or without a table. |
| V0Meaning.CompilePreservesMeaning | crates/scout-cli/src/meteora_m12.rs:75-174 | For every plan of the demanded shape and every valid table the compiler writes exactly one message that means the plan: decoding and resolving through the indices gives the planned keys in order, flags are the disjunction over duplicates, one signer at index 0, a static program key, the amounts, and everything the table can carry loaded from it; the other fields of the answer describe that message; it fails only by exceeding the packet. |
| PumpSwap.ValidateFeeTiers | crates/scout-cli/src/pumpswap.rs:1112-1146 | Tiers pass exactly when their fees are proper and their thresholds never decrease. |
| PumpSwap.SelectFees | crates/scout-cli/src/pumpswap.rs:389-415 | A canonical pool gets the last tier its capitalisation reaches, or the first if it reaches none; any other pool the flat fees. |
| PumpSwap.BestInputIsGreatest | crates/scout-cli/src/pumpswap.rs:450-499 | An input fits the budget with its three rounded-up fees exactly when it does not exceed the best one. |
| PumpSwap.MaxCurveInputForBudget | crates/scout-cli/src/pumpswap.rs:450-486 | The binary search returns that greatest input and, with proper fees, never fails. |
| PumpSwap.CurveOutputGalois | crates/scout-cli/src/pumpswap.rs:276-387 | The curve output is the greatest amount the constant product covers. |
| PumpSwap.CurveDirectionsAdjoint | crates/scout-cli/src/pumpswap.rs:322-387 | A curve input buys an output exactly when it covers the reverse quote of that output. |
| PumpSwap.ReverseWithinForward | crates/scout-cli/src/pumpswap.rs:322-387 | Quoting back what an input bought never needs more than that input, and never the whole reserve. |
| PumpSwap.QuoteInput | crates/scout-cli/src/pumpswap.rs:216-387 | The quote with its search computes the quote function, for both sides. |
| PumpSwap.OnlyQuotable | crates/scout-cli/src/pumpswap.rs:216-266 | Nothing is quoted for no input, an empty reserve or fees above ten thousand basis points. |
| PumpSwap.FeeIsLeast | crates/scout-cli/src/pumpswap.rs:488-499 | A fee is the least amount that is at least its basis points of the raw amount. |
| PumpSwap.SellPaysCurveLessFees | crates/scout-cli/src/pumpswap.rs:276-320 | A sell succeeds exactly when the curve output exceeds its three fees; it then pays that output less the three, each field being the fee of its own rate, and consumes everything requested. |
| PumpSwap.BuyStaysInBudget | crates/scout-cli/src/pumpswap.rs:322-387 | A buy consumes at most the request, pays what the best affordable input buys, charges the three fees of the least input that buys it, each in its own field, and fails only by rounding to nothing: neither "exceeded requested input" nor reserve depletion can occur. |
| PumpSwap.BuyMonotone | crates/scout-cli/src/pumpswap.rs:322-387 | A larger budget still quotes and never buys less. |
| PumpSwap.ProductNeverFalls | crates/scout-cli/src/pumpswap.rs:276-387 | After any quoted buy or sell the product of the reserves is at least what it was. |
| PumpSwap.RoundTripNeverGains | crates/scout-cli/src/pumpswap.rs:276-387 | Selling what was bought at the reserves after the purchase never returns more than was paid into the curve, nor than was consumed. |
| PumpSwap.BuyThenSell | crates/scout-cli/src/pumpswap.rs:276-387 | Over two quotes: a sell of what a buy bought, in the pool the buy left, pays with its fees at most what the buy paid into the curve. |
| PumpSwap.SellThenBuy | crates/scout-cli/src/pumpswap.rs:276-387 | Over two quotes: a buy with all that a sell paid, in the pool the sell left, returns at most what was sold. |
| R13Plan.LoadPlan | crates/scout-cli/src/forensics.rs:348-503 | A source run loads exactly if it is one completed, consistent run with a candidate and fitting windows; the plan is then well formed, and the duplicate-candidate check can never fire. |
| R13Plan.ReadRecords | crates/scout-cli/src/forensics.rs:367-463 | The record loop accepts exactly the files whose every record continues the ones before. |
| R13Plan.CandidatesOfFile | crates/scout-cli/src/forensics.rs:383-443 | In an accepted file candidates carry strictly increasing sequence numbers. |
| R13Plan.CollectRequests | crates/scout-cli/src/forensics.rs:487-492 | The history requests are exactly both legs of every route over its window. |
| R13Plan.RequiredEndSlot | crates/scout-cli/src/forensics.rs:94-106 | The required end slot is the maximum over the routes. |
| R13History.FetchAddressHistory | crates/scout-cli/src/forensics_rpc.rs:364-450 | The paging loop with retain, sort and dedup computes the history function. |
| R13History.PagesAreLedger | crates/scout-cli/src/forensics_rpc.rs:374-432 | Pages from a growing newest-first ledger are one contiguous stretch of it, and are reported complete exactly when the ledger ends inside them or their last entry lies strictly below the window. |
| R13History.ArrangedIsExact | crates/scout-cli/src/forensics_rpc.rs:434-442 | Retain, sort and dedup keep exactly the entries of the window, ordered by slot and signature, each once. |
| R13History.CompleteHistoryIsExact | crates/scout-cli/src/forensics_rpc.rs:364-450 | A complete history lists exactly the ledger's entries of the inclusive window, as of any later time. |
| R13History.CompleteWhen | crates/scout-cli/src/forensics_rpc.rs:364-450 | A history is complete exactly when fewer than two full pages stand, or the two hundredth entry is older than the start slot. |
| R13History.PagesFail | crates/scout-cli/src/forensics_rpc.rs:364-450 | A history is refused only if one of the pages asked for could not be read. |
| R13Acquisition.PlanUnions | crates/scout-cli/src/forensics_rpc.rs:133-154 | Inverted windows are refused and every other address gets the least window covering its requests. |
| R13Acquisition.FetchUnions | crates/scout-cli/src/forensics_rpc.rs:156-213 | Each address is fetched over its union unless the confirmed tip is still short of it; a reason is recorded exactly for the incomplete ones. |
| R13Acquisition.UnionIsFetched | crates/scout-cli/src/forensics_rpc.rs:156-213 | A union's history is what the pages give, exactly if the tip covers its end and the pages can be read; otherwise it is empty and incomplete, with the cause. |
| R13Acquisition.RestrictAll | crates/scout-cli/src/forensics_rpc.rs:215-247 | Every request receives its own window cut out of its address's union. |
| R13Acquisition.AcquireHistories | crates/scout-cli/src/forensics_rpc.rs:104-250 | Every request is answered; no reason is recorded exactly when every history is complete; "union history unavailable" never occurs. |
| R13Acquisition.AcquiredIsExact | crates/scout-cli/src/forensics_rpc.rs:104-250 | A complete answer holds exactly the ledger's entries of the request's own window. |
| R13Acquisition.AcquireTransactions | crates/scout-cli/src/forensics_rpc.rs:272-311 | Over the cap nothing is fetched; otherwise exactly the available transactions are, and completeness means all of them. |
| R13Matching.ResolvedKeysAre | crates/scout-cli/src/forensics.rs:1201-1251 | Below the number of static keys an index names a static key, then the loaded writable ones, then the loaded readonly ones; nothing else is resolved. |
| R13Matching.ResolvedReads | crates/scout-cli/src/forensics.rs:1315-1358 | An instruction is resolved exactly if all its indexes are in range, and then names the keys at them. |
| R13Matching.RawAtIsRecorded | crates/scout-cli/src/forensics.rs:1253-1313 | The instruction at a coordinate is the outer one, or stands in the last group recorded for its outer one. |
| R13Matching.ResolveInstructions | crates/scout-cli/src/forensics.rs:1253-1358 | The resolved list holds exactly the recorded outer and inner instructions, in execution order. |
| R13Matching.PrecedesIsStrictOrder | crates/scout-cli/src/forensics.rs:1079-1089 | Coordinates are strictly and totally ordered by "precedes". |
| R13Matching.MatchLegByLayout | crates/scout-cli/src/forensics.rs:845-1029 | A leg matches an instruction exactly when one of eight tabulated swap layouts does: program, discriminator, pool, mints, user accounts and direction byte. |
| R13Matching.MatchLegFails | crates/scout-cli/src/forensics.rs:970-1029 | Matching a leg fails exactly for an unknown venue, or for an Orca swap in its pool without a legible direction. |
| R13Matching.ProofMeans | crates/scout-cli/src/forensics.rs:1031-1077 | A leg's mints are proven exactly if the instruction names them, or both user accounts appear in the balance lists and hold the leg's mints in every list that names them; the proof is undecided exactly otherwise. |
| R13Matching.MatchLegsAreSwaps | crates/scout-cli/src/forensics.rs:777-785 | The collected legs are exactly the transaction's swaps of the leg. |
| R13Matching.FindOrderedPair | crates/scout-cli/src/forensics.rs:787-812 | The nested search returns the first ordered pair with both mints proven; finding none, it reports exactly whether some pair was undecided. |
| R13Matching.MatchTransaction | crates/scout-cli/src/forensics.rs:763-843 | No match means that the transaction does not carry the route out, a match that it does; evidence that is decodable and decided never fails. |
| R13Meaning.ReadersAgree | crates/scout-cli/src/forensics.rs:1201-1251 | For the record of a message, the keys this reader resolves are the ones the runtime resolves, in the same order. |
| R13Meaning.CompiledSwapReadsBack | crates/scout-cli/src/forensics.rs:1201-1358 | A compiled swap, once recorded, is read as the plan's program over the plan's accounts, with its amounts. |
| R13Search.IntersectRouteHistories | crates/scout-cli/src/forensics.rs:564-645 | Each route gets the signatures both complete histories show, and the required set is their union. |
| R13Search.IntersectionIsCommon | crates/scout-cli/src/forensics.rs:564-645 | An intersection is complete exactly when both pools' histories are present and complete, and then holds exactly the signatures both show; otherwise it holds none. |
| R13Search.IntersectionIsExact | crates/scout-cli/src/forensics.rs:564-645 | A complete intersection holds exactly the signatures both pools' ledgers show in the route's window. |
| R13Search.MatchAll | crates/scout-cli/src/forensics.rs:686-702 | Every signature is settled as carrying the route out or not, or set aside as missing, malformed or undecided. |
| R13Search.AnalyzeRoute | crates/scout-cli/src/forensics.rs:654-757 | The verdict and its justification: complete absence, matches that are exactly the holding transactions, or incompleteness with its cause; no other status is ever given. |
| R13Search.AnalyzeTransactions | crates/scout-cli/src/forensics.rs:647-761 | Every route of the plan gets a justified verdict. |
| R13Search.VerdictsAreSound | crates/scout-cli/src/forensics.rs:564-843 | End to end over honest pages of an append-only ledger: no_atomic_match_complete implies that no successful transaction in both pool ledgers within the window holds an ordered pair of proven legs; a match verdict names exactly those that do. |
| R13Search.Search | crates/scout-cli/src/main.rs:2094-2141 | The search stage from histories to verdicts delivers sound verdicts, and only incomplete ones without a confirmed tip. |
| R13Maturity.ValidMeans | crates/scout-cli/src/forensics.rs:121-172 | A record passes exactly if it polled, its last tip implies a first, and it claims maturity exactly when the last tip reached the end slot. |
| R13Maturity.ValidateForPlan | crates/scout-cli/src/forensics.rs:121-172 | Validation is the listed checks against the plan's required end slot. |
| R13Maturity.Wait | crates/scout-cli/src/main.rs:1484-1565 | The polling loop stops at the first poll that reaches the end slot or comes back after the deadline, and reports first tip, last tip, attempts and errors of exactly those polls. |
| R13Maturity.WaitIsValid | crates/scout-cli/src/main.rs:1484-1565 | For every sequence of slots and errors, regressing slots included, and every timeout point the record passes validation. |
| R13Maturity.WaitForWindowMaturity | crates/scout-cli/src/main.rs:1484-1565 | The returned record is valid for the plan, and says mature exactly if some poll reached the end slot. |
| R13Log.ValidateLog | crates/scout-cli/src/forensics.rs:1737-2087 | The replay loop computes the replay function. |
| R13Log.ReplayDescribes | crates/scout-cli/src/forensics.rs:1737-1990 | After any accepted prefix the replay state describes the log: order, origin, counts per verdict, annotated keys. |
| R13Log.AcceptedLogMeans | crates/scout-cli/src/forensics.rs:1737-2087 | An accepted log is one run, start first, maturity second, end last; the end record counts every verdict and match correctly; each candidate is annotated once; an immature run searched nothing. |
| R13Log.AcceptedExactly | crates/scout-cli/src/forensics.rs:1737-2107 | A log is accepted if and only if it is one proper, ended run: its order, the checks of every event, the counts of the end record, each expected candidate annotated once, and every expected route settled if the run matured. |
| R13Log.UnfinishedIsRejected | crates/scout-cli/src/forensics.rs:2044-2046 | A log without an end record is rejected whatever counts are expected. |
| R13Writer.Writer.constructor | crates/scout-cli/src/forensics.rs:1424-1430 | A writer starts with an empty log at sequence one. |
| R13Writer.Writer.WriteEvent | crates/scout-cli/src/forensics.rs:1674-1723 | An event is appended exactly below the cap, the last place kept for the end record; a refusal leaves the log as it was. |
| R13Writer.KeysDiffer | crates/scout-cli/src/forensics.rs:1993-2002 | Candidates of one run with different sequence numbers have different "run:sequence:id" keys. |
| R13Writer.WriteRoutes | crates/scout-cli/src/forensics.rs:1510-1572 | Every route and match is written exactly if each route has a usable result and the cap allows: each route's verdict and signatures, followed by its matches under its id with transaction and outcome; the tally agrees with the replay. |
| R13Writer.WriteCandidates | crates/scout-cli/src/forensics.rs:1574-1594 | Every candidate is annotated in order with its route's verdict, exactly if the cap allows. |
| R13Writer.WriteEnd | crates/scout-cli/src/forensics.rs:1596-1615 | There is always room for the end record, and the finished log is accepted. |
| R13Writer.WriteArtifact | crates/scout-cli/src/forensics.rs:1384-1630 | For every loaded plan the artifact is written exactly when its parts fit together and the record total is at most 512; what is written replays, whatever a failure leaves behind does not; the returned result repeats the counts of the log. |
| R13Run.Investigate | crates/scout-cli/src/main.rs:2038-2150 | From a loaded plan and a valid maturity record only the record cap can stop the artifact, and the logged verdicts are true of the chain. |
| OrcaTickArray.DecodeDynamicTickArray | crates/scout-cli/src/orca_o2.rs:640-819 | The decoder computes the decode function. |
| OrcaTickArray.FillTicks | crates/scout-cli/src/orca_o2.rs:731-800 | The in-place loop with its moving offset computes the recursive tick decoder. |
| OrcaTickArray.TicksConsume | crates/scout-cli/src/orca_o2.rs:704-815 | The bitmap and length check forces every read in bounds and the loop to end at the last byte. |
| OrcaTickArray.DynamicReencodes | crates/scout-cli/src/orca_o2.rs:640-819 | Re-encoding what accepted bytes decode to reproduces them; neither a truncated read nor "did not consume account" can occur. |
| OrcaTickArray.DynamicDecodes | crates/scout-cli/src/orca_o2.rs:640-819 | Every canonical tick array survives encoding and decoding. |
| TokenExtensions.CurrentTransferFeeForMint | crates/scout-cli/src/orca_o2_quote_inputs.rs:111-213 | The offset loop computes the walk function. |
| TokenExtensions.FeeConfigReads | crates/scout-cli/src/orca_o2_quote_inputs.rs:273-318 | A configuration written with an older and a newer entry is read as the newer fee from its epoch on and the older one before, unless a rate exceeds 10000. |
| TokenExtensions.FeeConfigSets | crates/scout-cli/src/orca_o2_quote_inputs.rs:273-318 | Bytes set a fee exactly if they are such a written configuration; any other length is refused. |
| TokenExtensions.WalkAcceptsPermitted | crates/scout-cli/src/orca_o2_quote_inputs.rs:111-213 | The walk yields a fee exactly when the data is the encoding of supported extensions, none twice, up to the end or an uninitialized entry, and then the fee their configuration sets for the epoch. |
| TokenExtensions.MintFeeIs | crates/scout-cli/src/orca_o2_quote_inputs.rs:111-271 | A mint has a fee exactly if it is a bare initialized mint, or one followed by zeros, the account type and a permitted extension list, which sets it. |
| Costs.ComputePow10 | crates/scout-cli/src/costs.rs:690-706 | The power loop never overflows below its bound. |
| Costs.ConversionIsLeastCover | crates/scout-cli/src/costs.rs:973-1050 | The converted cost is the least amount that covers the cost for every SOL price up to the upper bound and every stable price from the lower bound on. |
| Costs.ConversionSucceeds | crates/scout-cli/src/costs.rs:973-1050 | The conversion succeeds exactly for prices above zero and their confidence, powers of ten up to 38, both sides of the fraction within 128 bits and a result within 64. |
| Costs.SelectPriorityFee | crates/scout-cli/src/costs.rs:438-497 | The selected fee is a positive sample with at least three quarters of the positive samples up to it and more than a quarter from it on, with true slot range and counts; there is none exactly without a positive sample. |
| Costs.RankIsP75 | crates/scout-cli/src/costs.rs:468-485 | The value at the nearest rank has three quarters of the values up to it and more than a quarter from it on. |
| Costs.PercentileIgnoresOrder | crates/scout-cli/src/costs.rs:438-497 | Rearranged samples select the same fee. |
| DecimalSol.ScanExponent | crates/scout-cli/src/costs.rs:660-688 | The scan for the exponent mark computes the split function. |
| DecimalSol.ParsesWhatIsWritten | crates/scout-cli/src/costs.rs:575-620 | A text parses to a decimal exactly when it writes it: digits with their place values, at most one point, an optional signed exponent. |
| DecimalSol.TrimFinds | crates/scout-cli/src/costs.rs:575-580 | Trimming leaves a written decimal exactly if the text is that decimal with only white space around it. |
| DecimalSol.HalfUpBounds | crates/scout-cli/src/costs.rs:634-655 | Quotient and doubled remainder give the value rounded half up. |
| DecimalSol.DecimalSolIsNearest | crates/scout-cli/src/costs.rs:575-658 | A text converts exactly when its decimal has supported scale and fits 64 bits, and then to the nearest lamport, the upper one at the midpoint. |
| DecimalSol.OtherTextIsRefused | crates/scout-cli/src/costs.rs:575-620 | A text that writes no decimal is refused. |

## Left out

- RPC, HTTP, WebSocket, retries, pacing, clocks, file writes and logging: answers, clock readings and run ids are parameters with arbitrary values; a write that fails for lack of disk is not modelled.
- JSON, base58, base64 and UTF-8 decoding: records, transactions and pages come decoded, with one constructor for "does not decode"; a page or transaction with a malformed field counts as an RPC failure or malformed evidence.
- PDA derivation: a function parameter that always succeeds; the search for a bump seed is not part of this model.
- Message texts: errors are constructors, and several texts of one meaning share one; reasons in results are left out where nothing depends on them.
- The order of keys in sorted maps and sets: loops over them visit the keys in any order, so the results hold for every order; the order of routes inside the R13 log is therefore not stated.
- Account decoders with fixed offsets (pools, bin arrays, extensions, mints, vaults, fee configurations, the fixed Orca tick array): one read per field, nothing across functions.
- The Orca swap mathematics, Whirlpool and oracle state, and Token-2022 legacy mints.
- R13 amount evidence and match details copied into the log (balances, fees, compute units, timing): no verdict depends on them, except that unreadable balances make a match fail, which is modelled.
- R14 block acquisition, route discovery, sizing, economics, registry and identity comparisons.
- The mapping of traversal terminations to operational failures, and the pool profile and admission checks.
- Simulation requests and responses of the transaction compiler.
- OrcaTickArray.ReadData: reads the seven fields of a tick with one bound check where the program checks each field; the error is the same.
- R13Maturity.Wait: reads the clock once per poll where the program may read it up to three times; only the telemetry in milliseconds can differ.
- PumpSwap.SelectFees: takes the market capitalisation as given; its computation from the reserves is one checked product and quotient.
- TokenExtensions.CurrentTransferFeeForMint: models mints of the Token-2022 program only.
