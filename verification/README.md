# A verified model of ledgr's fast paths

ledgr is a backtesting engine whose fast paths must agree with simple definitions. This
project models five connected parts of it in Dafny and proves the agreement, together with
the laws the definitions themselves obey.

- **Trading-status corrections** (`Forest`, `StatusLineage`, `LineageNumbers`, `ScopeGroups`,
  `OverlapSweep`, `OverlapCount`, `StatusFacts`, `StatusValidation`, `StatusRuntime`). Facts about an
  instrument may be corrected by later facts. The validator numbers the correction forest in
  preorder, refuses cycles, and decides by a sorted sweep and by counting whether two facts of
  one source contradict each other without one correcting the other. At run time the standing
  facts decide the status. A corrected fact never comes back.
- **Compact history read** (`HistoryRuns`, `HistoryRead`, `HistoryWindow`). Run-length summaries,
  an amortised gap cursor and a binary search give every cell what a backward scan would give,
  without looking ahead and with bounded reach.
- **Point-in-time provider** (`Clocks`, `Segments`, `SegmentCursor`, `PreparedStatus`,
  `MembershipFacts`, `MembershipWalk`, `MembershipCursor`, `MembershipSeal`). Compiled segments and
  header cursors answer any sequence of cutoffs, forwards or backwards, as the direct resolver
  answers that cutoff alone.
- **FIFO lots and the ledger** (`SpotFifo`, `SpotUnits`, `SpotBasis`, `SpotKernel`, `SpotEngine`,
  `SpotRuns`, `HeadlineLedger`, `LotCells`, `LotStore`, `SpotPacking`, `AccountingReplay`, `ReplayLoop`,
  `PositionIndex`, `PulseMatrix`, `ReplayGuards`, `ReplayEquity`, `KernelReplay`). The C++ kernel and
  the R lot store compute the same fills; whole-quantity batches are share-by-share first-in
  first-out trading; cash, basis and realized profit are conserved; the position index answers
  without replaying, and each instrument's book depends on its own events alone.
- **Pulse economics** (`ValuationClock`, `Affordability`). The valuation clock reads each close
  once and reports what a backward scan reports; the greedy allocator keeps its cash floor and
  does not depend on input order; when only sales bring cash in, it leaves nothing affordable
  behind.

`Ordering` holds the stable sort, `findInterval` and the counting facts the parts share;
`Cardinality`, `MixedRadix` and `Wrappers` hold small common ground.

Time is an integer, an open end or a missing clock is an option, and ids are opaque integers
ordered like the source's stable ids. Quantities, prices and cash are reals: the kernel's dust
tolerance is kept as it is, so the laws about lots hold for every input, and the results that
need exact quantities say so. Code that updates state step by step is modelled by methods and
classes proved against functions; the functions are then related to independent definitions.

Two promises do not hold on every input, and for both the exact condition is proved, for any
quantities, prices and books. First, cash and basis: the kernel swallows a dust-sized remainder of a
fill, drops a dust-sized rest of a lot, and sets a dust-sized basis to zero while lots of that value
remain. A fill balances cash, and keeps a basis the value of its lots, if and only if the guards of
those branches say so (`SpotBasis.NoDriftIffBalanced`, `SpotBasis.GapStaysClosed`), and so does a
whole ledger (`ReplayGuards.NoDustIffBalanced`, `ReplayGuards.NoGapsIffTracked`), which settles when
equity is opening cash plus realized plus unrealized profit (`ReplayEquity.EquityIdentity`).
`SpotBasis.RemainderIsSwallowed` and `SpotBasis.TinyPriceIsZeroed` are inputs on which the guards
fire; on whole quantities only the guard on the basis is left (`ReplayGuards.WholeLedgerExact`).
Second, the headline trade counter measures positions against a tolerance that grows with the price.
Fill by fill it agrees with the kernel, in counts and in positions, if and only if that tolerance
does not swallow the position being closed, and the two tolerances do not part over the position
left (`SpotRuns.HeadlineAgreesUnlessHidden`, with one condition for the count and one for the
position, and `HeadlineLedger.LedgerFollowsUnlessParted` for ledgers that also hold openings and
dispositions); `SpotRuns.HeadlineMissesHighPrice` is a run from flat on which the totals differ.

`dafny verify dfyconfig.toml` checks the whole project.

## Model

| member | source | states |
|---|---|---|
| Forest.AcyclicIsRooted | R/availability-facts.R:2319-2324 | A correction relation has no cycle exactly when every row reaches a root: reaching every row from the roots is a complete acyclicity test |
| Forest.EnclosureIsAncestry | R/availability-facts.R:2351-2355 | Under preorder numbers and subtree sizes, one interval encloses another exactly when the first row is reached from the second by one or more correction links |
| Forest.EntriesArePermutation | R/availability-facts.R:2337-2347 | Entry numbers of an acyclic family are 1 to n, each used once |
| Forest.SizeIsSubtreeCount | R/availability-facts.R:2327-2336 | The size behind `exit = entry + size - 1` is the number of rows in the subtree |
| StatusLineage.BuildChildren | R/availability-facts.R:2300-2303 | The offset and count vectors give every row exactly its children, in row order |
| StatusLineage.LevelExact | R/availability-facts.R:2308-2318 | The level found after d steps holds exactly the rows d links from a root, each once |
| StatusLineage.Walk | R/availability-facts.R:2308-2325 | The walk ends; it aborts exactly when the relation has a cycle, and otherwise its levels cover all rows |
| LineageNumbers.AddRunTotals | R/availability-facts.R:2330-2336 | One bottom-up step adds to every row the sizes of all its children at that level and changes nothing else |
| LineageNumbers.SizesBottomUp | R/availability-facts.R:2327-2336 | After the last step every row holds one plus the sizes of its children |
| LineageNumbers.NumberLevel | R/availability-facts.R:2340-2347 | A level is numbered after its parent and the earlier siblings' subtrees; other rows keep their number |
| LineageNumbers.EntriesTopDown | R/availability-facts.R:2337-2347 | The top-down pass gives every row its preorder number |
| LineageNumbers.BuildLineage | R/availability-facts.R:2289-2355 | A lineage is returned exactly when the correction relation is acyclic; its entries are a permutation of 1 to n, its exits bound the subtree, and its interval test is ancestry |
| OverlapSweep.PreviousEnds | R/availability-facts.R:2439-2447 | For each row, the latest end among the earlier rows of its scope that assert a given state, starting over with each scope |
| OverlapSweep.SweepSorted | R/availability-facts.R:2437-2459 | The pass reports a conflict exactly when some row starts before the latest end of an earlier row of its scope with another state |
| OverlapSweep.OpposingOverlap | R/availability-facts.R:2404-2460 | On valid intervals the sorted sweep reports a conflict exactly when two rows of one scope with different states overlap |
| ScopeGroups.ScopeGroup | R/availability-facts.R:2357-2391 | Two rows get the same group number exactly when they agree on the scope columns |
| MixedRadix.Lexicographic | R/availability-facts.R:2523-2529 | Keys `group * width + rank` compare as (group, rank) pairs and are equal only for equal pairs |
| OverlapCount.BegunMinusEnded | R/availability-facts.R:2534-2544 | For one row and one other state, rows begun before its end less rows ended by its start is the number of overlapping rows of that state |
| OverlapCount.CountOpposing | R/availability-facts.R:2534-2544 | The binary searches count the ordered pairs of one scope with different states that overlap |
| OverlapCount.CountRelated | R/availability-facts.R:2555-2568 | Stepping every row up its chain counts twice the opposing pairs in which one row corrects the other, each once; the loop ends |
| OverlapCount.CountsDecide | R/availability-facts.R:2500-2509 | More opposing ordered pairs than twice the related ones means, and is implied by, an opposing pair neither of whose rows corrects the other |
| OverlapCount.UnrelatedByCount | R/availability-facts.R:2510-2570 | The counting test decides whether such an unrelated pair exists |
| StatusValidation.UninvolvedHasNoRelatives | R/availability-facts.R:2471-2478 | A row that neither corrects nor is corrected has no ancestor and no descendant |
| StatusValidation.SourceConflict | R/availability-facts.R:2468-2498 | Sweeping the rows outside every chain and then counting over all rows reports a conflict exactly when two rows of one source, instrument and precedence overlap with different statuses and neither corrects the other |
| StatusFacts.OverlapMeans | R/availability-facts.R:2404-2460 | Two facts with proper intervals overlap exactly when both are in force at some instant |
| StatusValidation.KnowledgeDecides | R/availability-facts.R:2255-2264 | Comparing knowledge times decides whether at some instant the correction is known and the fact it corrects is not |
| StatusValidation.EndsDecide | R/availability-facts.R:2265-2271 | Comparing begin and end times decides whether some instant is left uncovered: after the fact's end and before its correction begins, or before the fact's end and after the correction's |
| StatusValidation.LinkTests | R/availability-facts.R:2245-2271 | The tests on one correction: its target exists, shares source and instrument, is never known later, and no instant is left uncovered |
| StatusValidation.ValidateSupersession | R/availability-facts.R:2239-2281 | Accepted exactly when every correction names a fact of its source and instrument, is never known before it and leaves no instant uncovered, and corrections have no cycle; a refusal names the first broken rule |
| StatusValidation.ValidateStatusRows | R/availability-facts.R:2224-2235 | Rows pass exactly when intervals are valid, the correction rules hold, corrections are acyclic and no unrelated pair clashes |
| StatusRuntime.ChainMovesForward | R/availability-facts.R:2255-2279 | Along an accepted chain of any depth instrument and source stay and neither knowledge time nor end moves back |
| StatusRuntime.ChainHasNoGap | R/availability-facts.R:2265-2281 | An accepted chain of any depth has no gap: from the begin of its oldest fact to the end of its last correction some fact of it is in force |
| StatusRuntime.NoResurrection | R/availability-facts.R:2255-2279 | Once a correction of any depth is known and has begun, even if it has ended again, the corrected fact never again stands and is never in conflict |
| StatusRuntime.BoundariesSuffice | R/availability-facts.R:2612-2618 | A fact in conflict at any instant is in conflict at some start, knowledge or end boundary |
| StatusRuntime.RuntimeConflicts | R/availability-facts.R:2600-2639 | The ids of the facts in conflict at some instant, boundary or not, are reported each once and in row order |
| StatusRuntime.ReportedIsConflicted | R/availability-facts.R:2600-2639 | An id is reported exactly when at some instant its fact is a top-precedence standing fact that another such fact contradicts |
| StatusRuntime.ReportedMeans | R/availability-facts.R:2600-2639 | In terms of clocks, corrections and precedence: an id is reported exactly when at some instant its fact is in force, uncorrected and outranked by none, and so is one that asserts another status |
| StatusRuntime.SomethingStands | R/history-substrate.R:431-436 | With acyclic corrections some active fact is never superseded, so the "everything superseded" branch is unreachable |
| StatusRuntime.ResolveConflicting | R/history-substrate.R:423-446 | The resolved status is conflicting exactly when the instrument has facts in conflict at that instant |
| StatusRuntime.ResolveAsserted | R/history-substrate.R:423-446 | It is unknown exactly when nothing is active, and otherwise, if not conflicting, the status every top fact asserts |
| StatusRuntime.WinnersAreTop | R/history-substrate.R:438-445 | The winners returned with the state are the ids of the top facts, sorted and each once |
| StatusRuntime.StatusMeans | R/history-substrate.R:423-446 | In those terms: unknown when no fact is in force, conflicting when two deciding facts differ, otherwise what a deciding fact asserts; the winners are the deciding facts, so one that a higher precedence outranks never wins |
| HistoryRuns.BuildRuns | src/history_compact.cpp:61-133 | Every row's runs are its maximal blocks of marked cells, in order, and all of them; this serves missing cells and false mask cells alike |
| HistoryRuns.AnyMarked | src/history_compact.cpp:351-373 | The search over run ends answers whether any column in the range lies in a run |
| HistoryRead.NoLookAhead | src/history_compact.cpp:379-428 | How a column is treated and what it shows depend only on the columns up to it |
| HistoryRead.TreatmentMeans | src/history_compact.cpp:379-428 | A missing cell shows the nearest earlier finite value exactly when carrying is allowed, that value is at most the horizon old and every column since is expected; the other treatments are given exactly when stated |
| HistoryRead.AdvanceGap | src/history_compact.cpp:394-396 | The gap cursor ends on the first run that does not end before the column, having skipped only runs that do |
| HistoryRead.FillMissing | src/history_compact.cpp:387-428 | A missing cell is treated as a backward scan would treat it: structural, unfilled, expired or carried |
| HistoryRead.ReadCell | src/history_compact.cpp:379-428 | One requested cell and its accesses match the backward scan; with exact gap runs and a deep enough dependency no check fires |
| HistoryRead.FillWindow | src/history_compact.cpp:375-428 | A whole window in place: cells, counts, flags and accesses match the scan column by column |
| HistoryRead.AccessesWithinReach | src/history_compact.cpp:48-53 | Every traced read is a requested cell or a cell at most the carry horizon before one and not before the declared dependency |
| HistoryWindow.ReadInstrument | src/history_compact.cpp:328-438 | One instrument's cells, finite, carried, used-before, structural and expired summaries are the scan's, including the short-window rule; reads stay within reach whatever the summaries say |
| HistoryWindow.NaiveIgnoresLater | src/history_compact.cpp:394-428 | Two reads whose data agree up to a column show the same cell there, although their later gap runs differ |
| HistoryWindow.DependencyFirst | R/history-frame.R:536-540 | The dependency start is the last column, at least one, that reaches the carry horizon before the first column |
| HistoryWindow.ViewFor | src/history_compact.cpp:337-360 | Base mask and override are read through the same contract in absolute columns |
| HistoryWindow.CompactRead | src/history_compact.cpp:140-445 | End to end with runs from the two builders: no consistency check fires and every instrument's window is the naive one, within reach |
| Segments.PiecewiseConstant | R/availability-provider-prepared.R:291-301 | The answer at the last boundary at or before a cutoff is the answer from the facts applicable at exactly that cutoff; before the first boundary it is the default |
| Segments.BuildTable | R/availability-provider-prepared.R:277-313 | Each instrument owns contiguous cells: minus infinity with the default, then its finite boundaries in order with the rule's answer there |
| SegmentCursor.CountSettles | R/availability-provider-prepared.R:325-328 | Counting reached boundaries inside a slice lands on the last boundary at or before the cutoff |
| SegmentCursor.SettledUnique | R/availability-provider-prepared.R:324-338 | There is one such cell, so the vectorised re-seek and the step-wise advance agree |
| SegmentCursor.Cursor.Advance | R/availability-provider-prepared.R:329-336 | The repeat loop ends with every cursor on the last reached boundary of its slice |
| SegmentCursor.Cursor.Seek | R/availability-provider-prepared.R:324-341 | After any cutoff, forward, backward or repeated, every cursor sits on the last boundary at or before it |
| SegmentCursor.Cursor.Read | R/availability-provider-prepared.R:342 | What is read equals resolving the facts applicable at the last cutoff, whatever was sought before |
| SegmentCursor.AnswerAll | R/availability-provider-prepared.R:277-344 | Compiled once and sought at any list of cutoffs, every instrument gets at each of them the direct answer at that cutoff |
| PreparedStatus.ReadStatus | R/availability-provider-prepared.R:488-500 | The compiled trading status read after any seeks is the production rule's status at that cutoff |
| PreparedStatus.StatusAtAll | R/availability-provider-prepared.R:373-396 | Status rows compiled once give at every cutoff of a list the status the production rule gives then |
| MembershipResolver.Resolve | R/availability-provider.R:58-157 | The loops leave every mentioned instrument with its walked state, reason and evidence, and list the members in stable order; any other instrument stays unknown |
| MembershipResolver.AnswerFor | R/availability-provider.R:163-189 | An instrument without a row is denied by the last complete set, if any, with that set as evidence |
| MembershipWalk.AnswerIsDescribed | R/availability-provider.R:58-189 | The direct answer depends only on the latest eligible listing, the latest eligible complete set and the last applicable interval row |
| MembershipWalk.AnswerIsLatest | R/availability-provider.R:58-189 | From the clocks alone: a latest applicable interval decides, failing that a latest eligible listing that no complete set outranks, failing that the latest eligible complete set; one outranks another by later effective time, then later knowledge time, then larger id |
| MembershipCursor.AdmittedIsEligible | R/availability-provider-prepared.R:162-163 | The headers counted by one search over eligibility times are exactly those effective and known at the cutoff |
| MembershipCursor.AdvanceHeader | R/availability-provider-prepared.R:23-52 | Admitting one header keeps the latest complete set and each instrument's latest listing with its fact and knowledge time, in whatever order headers are admitted |
| MembershipCursor.StateIsAnswer | R/availability-provider-prepared.R:184-213 | The header state at a cutoff, overlaid with the interval rows, is the direct resolver's answer: state, reason and winning evidence |
| MembershipCursor.Membership.AdvanceHeaders | R/availability-provider-prepared.R:157-182 | After any cutoff the admitted headers are those eligible at it and the cached planes are current |
| MembershipCursor.Membership.ResolveAt | R/availability-provider-prepared.R:223-251 | For every sequence of cutoffs each key instrument gets the direct resolver's known flag, member state, reason and evidence, with the knowledge time of that evidence |
| MembershipCursor.Membership.MembersAt | R/availability-provider-prepared.R:252-263 | For every sequence of cutoffs the members are the direct resolver's, in stable order |
| MembershipCursor.ResolveAll | R/availability-provider-prepared.R:54-268 | Planned once and resolved at any list of cutoffs, every answer is the direct resolver's at its own cutoff |
| MembershipCursor.MembersAll | R/availability-provider-prepared.R:252-268 | Both resolvers, run at any list of cutoffs, return the same members in the same order |
| MembershipSeal.ChecksAccept | R/availability-persistence.R:401-491 | Set rows pass exactly when each asserts membership without an end in a named set, has one header that begins, is known and is sourced as it is, and stands once in its set, and the headers are complete and distinct |
| MembershipSeal.ChecksName | R/availability-persistence.R:401-491 | A refusal names the first of these rules that does not hold |
| MembershipSeal.KeptAreContestable | R/availability-persistence.R:492-499 | The sweep is given the interval rows and the set rows of a scope that has one |
| MembershipSeal.PruningKeepsVerdict | R/availability-persistence.R:492-499 | Dropping set rows whose scope has no interval row never changes whether some scope contradicts itself |
| MembershipSeal.SealMembership | R/availability-persistence.R:688-699 | Checking, pruning and sweeping refuses, or reports a conflict, exactly as sweeping all the rows would |
| SpotFifo.DustMeans | src/spot_fifo.cpp:19-22 | The tolerance is 2^-52 times the largest of one and the four amounts |
| SpotFifo.CloseFrontProgress | src/spot_fifo.cpp:196-240 | Every turn of the closing loop, with the kernel's dust tolerance, removes the front lot or finishes the fill |
| SpotFifo.FillKeepsConsistent | src/spot_fifo.cpp:194-272 | Lots of an instrument keep one sign and its net is exactly their sum, dust included |
| SpotFifo.FillKeepsLots | src/spot_fifo.cpp:194-272 | On any book, of mixed signs or not, a summed net stays summed and no zero lot arises |
| SpotFifo.FillSplits | src/spot_fifo.cpp:205-244 | The closed and opened parts make up the fill up to one dust quantity, and exactly when something is opened |
| SpotFifo.FillBalances | src/spot_fifo.cpp:194-266 | Cash paid or received becomes basis and realized profit, up to the fill's drift, on any book |
| SpotFifo.DriftIsDust | src/spot_fifo.cpp:205-258 | The drift is at most the price of one dust quantity plus one basis tolerance |
| SpotUnits.FillIsWhole | src/spot_fifo.cpp:194-253 | On whole quantities below 2^52 the tolerance acts only at zero: the fill is exact whole-number lot arithmetic |
| SpotUnits.FillIsUnitTrading | src/spot_fifo.cpp:194-253 | A whole fill trades one share at a time on a first-in first-out queue: it consumes the oldest opposite shares and queues the rest, with the gains of the consumed shares |
| SpotBasis.TurnDropsDust | src/spot_fifo.cpp:206-216 | A closing turn drops at most its tolerance, valued at the price of the lot |
| SpotBasis.GapGrowsByDust | src/spot_fifo.cpp:194-258 | On any book a fill moves basis less lot value by no more than one such tolerance per closing turn and one more for a basis set to zero |
| SpotBasis.FillMovesNet | src/spot_fifo.cpp:205-253 | On any book with its net summed a fill moves the net by the quantity traded, plus what its turns drop and less what it swallows |
| SpotBasis.SlipsUnlessNeither | src/spot_fifo.cpp:205-217 | Those two never cancel: the net moves by exactly the quantity traded if and only if no turn drops the rest of a lot and none swallows the rest of the fill |
| SpotBasis.NoDriftIffBalanced | src/spot_fifo.cpp:205-258 | On any book and for any fill cash balances exactly if and only if the guards say so: no priced remainder is swallowed and no basis set to zero, or the two cancel |
| SpotBasis.NothingUnexecuted | src/spot_fifo.cpp:206-208 | At a positive price the priced remainder is zero exactly when no quantity was swallowed |
| SpotBasis.GapStaysClosed | src/spot_fifo.cpp:209-258 | On any book whose basis is the value of its lots it stays so if and only if nothing of value is dropped, or the basis is set to zero and the live lots are worth nothing |
| SpotBasis.WholeFillIsExactUnlessZeroed | src/spot_fifo.cpp:255-258 | On whole quantities at any price both conditions come down to one: the tolerance does not set a basis of non-zero value to zero |
| SpotBasis.TinyPriceIsZeroed | src/spot_fifo.cpp:257-258 | That does happen: one share bought from flat at 2^-60 is held with no basis |
| SpotBasis.RemainderIsSwallowed | src/spot_fifo.cpp:206-208 | So does the other: one share bought against a short lot of 1 - 2^-53 at the same price closes it, opens nothing and leaves 2^-53 unpaid for |
| SpotBasis.WholePricesKeepBasis | src/spot_fifo.cpp:257-258 | It does not happen in whole prices with values below 2^52 |
| SpotKernel.RunAccepts | src/spot_fifo.cpp:170-184 | A batch is accepted exactly when every fill has a known instrument and side, a positive quantity and price and no negative fee; a refusal names what is wrong with the first fill that has not |
| SpotKernel.StepKeepsSound | src/spot_fifo.cpp:255-272 | One fill keeps every book one-sided and summed and the total basis equal to the books' bases |
| SpotKernel.CompensationExact | src/spot_fifo.cpp:262-266 | The compensated total less its compensation moves by exactly the realized profit less the fee |
| SpotKernel.RunConserves | src/spot_fifo.cpp:170-317 | Over any accepted fill list cash plus total basis less realized profit changes only by the run's drift |
| SpotKernel.RunDriftIsDust | src/spot_fifo.cpp:170-317 | That drift is no larger than one dust quantity at the price and one basis tolerance for each fill |
| SpotKernel.LegsShareFee | src/spot_fifo.cpp:289-314 | A fill emits one or two rows, closing before opening, and their fees add up to the fill's fee |
| SpotKernel.FeeByQuantity | src/spot_fifo.cpp:289-291 | Every leg bears the fee in proportion to its quantity |
| SpotKernel.RowsTellFill | src/spot_fifo.cpp:293-314 | The fill rows are the fill's own, carry the quantities closed and opened, and the whole realized profit on the closing row |
| SpotKernel.EventTellsFill | src/spot_fifo.cpp:268-287 | The event row's position change is the net's up to what slips, its cash change the account's, and its profit and basis the totals after the fill |
| SpotKernel.RunSplits | src/spot_fifo.cpp:170-317 | One call over two lists is two calls one after the other |
| SpotKernel.RunAppends | src/spot_fifo.cpp:274-316 | A run only appends to the event and fill rows already there |
| SpotEngine.CloseTurn | src/spot_fifo.cpp:196-240 | One turn on the front of the queue, with its running totals, is the specified turn |
| SpotEngine.CloseOpposite | src/spot_fifo.cpp:194-242 | The loop as it runs computes the specified closing |
| SpotEngine.Engine.Fill | src/spot_fifo.cpp:170-317 | One fill in place: lots, net, basis, totals, cash, position and rows become the specification's; a refused fill changes nothing |
| SpotEngine.Engine.RunBatch | src/spot_fifo.cpp:170-317 | A whole batch in place is the specified run, or stops at the first bad fill; afterwards filled instruments show their net as position and the others keep theirs |
| SpotRuns.RunTradesUnits | src/spot_fifo.cpp:170-317 | Over every whole-quantity batch each instrument is a queue of shares: final lots, realized profit and the number of CLOSE rows are those of share-by-share trading |
| SpotRuns.HeadlineCount | R/backtest-results.R:526-577 | The counter's loop over fills and other position changes, or its abort on a malformed event, is the specified count |
| SpotRuns.HeadlineStops | R/backtest-results.R:533-572 | The count stops exactly on a ledger with a fill that lacks a known instrument or side, or a positive quantity and price, or a position change of no known instrument |
| SpotRuns.CountAgreesUnlessHidden | R/backtest-results.R:540-545 | On any sound account with equal positions any fill is counted as the kernel closes it exactly when the tolerance does not swallow the position it closes |
| SpotRuns.PositionAgreesUnlessHidden | R/backtest-results.R:546-548 | And the counter is left with the kernel's net exactly when its tolerance zeroes only a position the kernel has lost too and the kernel's moves only a position the counter zeroes |
| SpotRuns.HeadlineAgreesUnlessHidden | R/backtest-results.R:526-550 | Over any fills from any sound account the counter agrees with the kernel in count and positions, fill by fill, if and only if neither happens on the way |
| SpotRuns.HeadlineCountsCloses | R/backtest-results.R:526-550 | With quantities, positions and prices below 2^52 the headline count is the number of CLOSE rows the kernel emits |
| SpotRuns.HeadlineMissesHighPrice | R/backtest-results.R:542-545 | Without a bound on the price the totals can part: from flat, a share bought at 1 and sold at 2^53 gives one CLOSE row and a count of zero |
| HeadlineLedger.LedgerFollowsUnlessParted | R/backtest-results.R:526-577 | Over any accepted ledger of fills, cash flows, openings and dispositions the counter keeps the nets the replay leaves and has counted the fills that close, after every event, if and only if no event parts them, by the tolerance it applies to that event |
| HeadlineLedger.FillFollows | R/backtest-results.R:540-550 | For a fill on any book: exactly when the sign of the position past the tolerance tells what the lot in front tells, and neither tolerance misplaces the rest |
| HeadlineLedger.OneSignMiscountsHidden | R/backtest-results.R:542-545 | On a book of one sign the count differs exactly when the tolerance swallows the position it closes |
| HeadlineLedger.MoveFollows | R/backtest-results.R:553-576 | For other events: exactly when the tolerance does not swallow the position an opening makes, and covers what a disposition's stated position differs from the one held |
| HeadlineLedger.HeadlineCountsClosingFills | R/backtest-results.R:526-577 | From nothing held and without such an event the headline total is the number of fills whose replayed leg closes something |
| LotCells.Compact | R/lot-accounting.R:69-86 | Compaction keeps the live lots in order and leaves no more spent slots in front than live ones |
| LotCells.CompactsWhen | R/lot-accounting.R:69-79 | Unless forced, compaction moves the live lots exactly when spent slots outnumber them, and an empty window starts over |
| LotCells.Append | R/lot-accounting.R:88-111 | Appending adds one lot at the end of the live window |
| LotCells.GrowsOnlyWhenFull | R/lot-accounting.R:88-105 | The vectors grow exactly when every slot is live, to twice the size and at least four, and spent slots stay bounded by live ones |
| LotCells.CloseSlots | R/lot-accounting.R:261-313 | The ledger-side closing loop, on slots with a moving head, is the kernel's closing |
| LotCells.BlockedNeedsZeroLot | R/lot-accounting.R:329-336 | The "unconsumed opposing lot" abort cannot happen on a book without zero lots, whatever their signs |
| LotCells.FillSlots | R/lot-accounting.R:250-366 | A fill on the slots is the kernel's fill on the queue they stand for, or is refused exactly when a zero lot blocks the opening leg |
| LotStore.ApplyStoreFill | R/lot-accounting.R:239-385 | The ledger-side fill settles basis, total, net and compensated profit as the kernel does |
| SpotPacking.GroupFlatten | R/compiled-spot-fifo.R:104-135 | Grouping flat columns by instrument gives every instrument's live lots back, in order |
| SpotPacking.Pack | R/compiled-spot-fifo.R:104-135 | The flat columns are the live lots instrument by instrument |
| SpotPacking.Load | src/spot_fifo.cpp:109-122 | Loading appends each row to its instrument's queue and refuses exactly an index out of range |
| SpotPacking.Unload | src/spot_fifo.cpp:319-328 | Unloading lists the queues instrument by instrument |
| SpotPacking.Unpack | R/compiled-spot-fifo.R:137-166 | Unpacking gives each instrument a window over exactly its rows |
| SpotPacking.HandOver | R/compiled-spot-fifo.R:203-243 | Packed and loaded, every queue arrives as it was |
| SpotPacking.TakeBack | R/compiled-spot-fifo.R:244-248 | Unloaded and unpacked, every queue comes back as it was |
| SpotPacking.RunCompiled | R/compiled-spot-fifo.R:168-249 | A compiled call refuses a batch with any side other than BUY or SELL, and otherwise is the specified run on the account the store stands for, positions included; no load check fires |
| SpotPacking.CallsAreOneRun | src/spot_fifo.cpp:170-317 | However a fill list is cut, the runs of the pieces, each from the account the one before left, have together the lots in order, cash, basis, profit and rows of one run |
| SpotPacking.RunChunks | R/compiled-spot-fifo.R:168-249 | Compiled calls piece by piece, lots packed and unpacked between them, return what one run over the whole list returns, positions included |
| SpotPacking.EventNumbers | src/spot_fifo.cpp:276-316 | Events are numbered consecutively from the starting number, one per fill |
| AccountingReplay.PrefixReplay | R/accounting-replay.R:296-326 | A prefix of an accepted ledger replays, and the values kept for its events are those kept in the full replay |
| AccountingReplay.MarkIsPrefix | R/accounting-replay.R:296-326 | The cash, position, realized profit and basis kept for an event are those of replaying the ledger up to it |
| AccountingReplay.QuietStretch | R/accounting-replay.R:296-318 | An instrument's book does not change between its own events |
| AccountingReplay.NeverBlocked | R/lot-accounting.R:329-336 | From any account without zero lots no ledger makes one, openings and mixed signs included, so replay never stops on that abort |
| AccountingReplay.NearlyEqualMeans | R/lot-accounting.R:476-484 | The stated profit passes exactly when it lies within the tolerance of the realized one on either side |
| AccountingReplay.DisposeAccepts | R/lot-accounting.R:447-487 | A disposition is accepted exactly when it sells the signed position it states at no negative price, leaves neither net nor lots, and states the profit it realizes |
| AccountingReplay.EventConserves | R/lot-accounting.R:407-490 | Fills, cash flows, openings and dispositions alike conserve cash plus basis less realized profit, but for what comes in from outside and dust |
| AccountingReplay.ReplayConserves | R/accounting-replay.R:271-345 | Over any accepted ledger that quantity is what it was plus the outside contributions, up to dust |
| AccountingReplay.ReplayDriftIsDust | R/accounting-replay.R:271-345 | That dust is no larger than one dust quantity at the price and one basis tolerance for each fill and disposition |
| ReplayLoop.BookStoreFill | R/lot-accounting.R:239-385 | A fill on the lot store is the specified booking |
| ReplayLoop.OpenInStore | R/lot-accounting.R:147-180 | An opening appends its lot and adds its basis; a zero quantity changes nothing |
| ReplayLoop.DisposeInStore | R/lot-accounting.R:447-487 | A disposition is accepted exactly when it empties the position and its lots and the stated profit matches |
| ReplayLoop.ReplayEvents | R/accounting-replay.R:271-345 | The replay loop over the lot store is the specified replay; reported instruments show their net, others their initial position |
| PositionIndex.ChronologicalMeans | R/accounting-replay.R:356-359 | A ledger is searched exactly when no event comes right after one with a later timestamp; equal timestamps are accepted |
| PositionIndex.BeforeIsPrefix | R/accounting-replay.R:356-359 | With non-decreasing timestamps the events at or before a time are a prefix of the ledger |
| PositionIndex.LookupFindsLast | R/accounting-replay.R:363-378 | The key search finds the last event of the instrument in the prefix, or that there is none |
| PositionIndex.LookupIsAsof | R/accounting-replay.R:346-378 | One search gives a reported instrument the position that replaying the events at or before the time gives, and any other zero |
| PositionIndex.IndexedIsAsof | R/accounting-replay.R:347-355 | From any starting lots that is the replayed position if and only if some event has reported the instrument by then or nothing of it was held at the start |
| PositionIndex.PairsAreAsof | R/accounting-replay.R:356-382 | From any starting lots every (instrument, time) pair gets that position, zero when either is missing; the index declines exactly when timestamps decrease |
| PositionIndex.TimelineIsAsof | R/availability-results.R:410-447 | The timeline is the per-time reader at each of its times, for every instrument |
| PositionIndex.PositionsAsof | R/availability-results.R:383-396 | The per-time reader replays the selected events from an empty lot store and reports every net |
| PulseMatrix.ReplayIsLocal | R/accounting-replay.R:271-326 | Replaying a ledger is replaying each instrument's own events: it is accepted exactly when they all are, and leaves the books they leave |
| PulseMatrix.PulseIsAsof | R/accounting-replay.R:384-412 | When each instrument's own timestamps never decrease, however they interleave, the per-time reader accepts any time and the matrix agrees with it exactly when the instrument has an event by then or nothing of it was held at the start |
| PulseMatrix.PulseIsIndexed | R/accounting-replay.R:347-412 | In a ledger in time order the matrix holds the position the key index finds |
| PulseMatrix.PositionsAtPulses | R/accounting-replay.R:384-412 | The matrix is returned unless a requested instrument's own timestamps decrease, and holds what replaying that instrument's own events at or before the pulse leaves |
| ReplayGuards.NoDustIffBalanced | R/accounting-replay.R:271-345 | From any account any accepted ledger is free of dust after every event if and only if every fill and disposition balances cash |
| ReplayGuards.NoGapsIffTracked | R/accounting-replay.R:271-345 | From any account whose bases are the value of its lots they stay so after every event of any accepted ledger if and only if every fill and disposition keeps them so |
| ReplayGuards.ReplayStaysTallied | R/accounting-replay.R:271-345 | Every kind of event keeps every net the sum of its lots and the total the sum of the bases |
| ReplayGuards.WholeLedgerExact | R/accounting-replay.R:271-345 | On whole quantities at any price both hold exactly when no basis of non-zero value is set to zero |
| ReplayEquity.RowIsAsof | R/accounting-replay.R:414-448 | A pulse's row holds the cash and realized profit replayed by then; equity is cash plus value and unrealized profit is value above the replayed basis |
| ReplayEquity.EquitySplits | R/accounting-replay.R:414-448 | At every pulse equity is opening cash plus outside contributions plus realized and unrealized profit, up to dust |
| ReplayEquity.TradesAreSelfFinanced | R/accounting-replay.R:103-118 | A fill brings nothing in from outside exactly when its recorded cash delta is the computed one; a disposition never does |
| ReplayEquity.EquityIdentity | R/accounting-replay.R:414-448 | Opened flat and with nothing brought in by the pulse, equity is opening cash plus realized plus unrealized profit if and only if the dust by then cancels out, and so when every event by then balances cash |
| ReplayEquity.UnrealizedMarksLots | R/accounting-replay.R:430-446 | The unrealized profit at a pulse is what the lots live then would gain if closed at its prices, if and only if the gaps between basis and lot value cancel out |
| ReplayEquity.EquityCurve | R/accounting-replay.R:414-448 | The curve is returned exactly when timestamps never decrease, a row for every pulse from the kept values, the requested instruments' positions and that pulse's closes |
| ReplayEquity.CurveHoldsAsof | R/accounting-replay.R:430-436 | Over every instrument of a flat start the curve values the positions the per-time reader replays |
| ReplayEquity.CurveFromNothing | R/accounting-replay.R:414-448 | Started from nothing and within both guards, the curve's equity is opening cash, realized profit and the gain on the lots live at the pulse |
| KernelReplay.SameCloseFee | R/accounting-replay.R:470-478 | The projection's fee split and the kernel's agree |
| KernelReplay.KernelLedgerReplays | R/accounting-replay.R:450-489 | The ledger a kernel run writes replays without refusal to the run's lots, cash, basis and profit; its running values are the replay's, and the projected fills are the emitted rows |
| ValuationClock.MarkIgnoresLater | R/availability-economics.R:90-126 | No later close influences a mark |
| ValuationClock.LabelsMean | R/availability-economics.R:110-145 | Each label is given exactly when stated: the column's own close, one no older than the horizon, an older one that is frozen, an older one that expired, or none; only the first three are marks |
| ValuationClock.ReadColumn | R/availability-economics.R:100-106 | Reading a column leaves every instrument with its last observed close so far |
| ValuationClock.Clock.ReadTo | R/availability-economics.R:94-108 | The columns up to the pulse's are read once each |
| ValuationClock.Clock.Marks | R/availability-economics.R:110-145 | Mark, reference, age, source label, permission and freezing are those of a backward scan from the pulse's column |
| ValuationClock.Clock.Advance | R/availability-economics.R:62-146 | Any accepted sequence of calls reports direct backward-scan marks and has read instruments times current column cells; refused calls change nothing |
| Affordability.Priority | R/availability-economics.R:358-359 | Every entry gets exactly one turn |
| Affordability.TurnsRise | R/availability-economics.R:353-359 | Unblocked sales out of a holding that bring cash in have their turns first; within each group turns rise with the id, ties keeping input order |
| Affordability.SmallerIdFirst | R/availability-economics.R:358-374 | Of two unblocked entries of one group and one cost, the smaller id is rejected while the larger is accepted exactly when it falls short at its turn and the turns between raise what it was short of |
| Affordability.LargerIdNotPreferred | R/availability-economics.R:358-374 | When only those sales bring cash in, that never happens |
| Affordability.LargerIdPreferred | R/availability-economics.R:358-374 | Otherwise it does: an opening short sale between two equal purchases pays for the second only |
| Affordability.CashStaysAboveFloor | R/availability-economics.R:361-374 | From cash at or above minus the tolerance virtual cash never falls below it |
| Affordability.GeneratorsAccepted | R/availability-economics.R:353-374 | Every unblocked sale that raises cash is accepted |
| Affordability.NothingMoreFits | R/availability-economics.R:362-374 | If all other unblocked deltas are non-positive, no unblocked rejected entry fits the final cash |
| Affordability.OrderDoesNotMatter | R/availability-economics.R:358-359 | With distinct ids neither the accepted entries nor the final cash depend on input order |
| Affordability.FinalCashIsSum | R/availability-economics.R:361-368 | Final cash is opening cash plus the accepted deltas |
| Affordability.RejectionOf | R/availability-economics.R:369-383 | A rejection carries its blocking and informational reasons and lack of cash, each once, and its code is the first blocking one |
| Affordability.TakeTurns | R/availability-economics.R:360-374 | The loop marks an entry accepted, or short of cash, exactly when its turn says so |
| Affordability.ApplyAffordability | R/availability-economics.R:344-388 | Accepted and rejected entries partition the input in order, rejections carry their first blocking reason or lack of cash, and the cash floor holds |

## Left out

- Database reads and writes, run registration, hashing and JSON: input and output over foreign code. Ids, reasons and provenance are opaque integers.
- IEEE rounding: quantities, prices and cash are exact reals, so the compensation term of realized profit is always zero after a fill. The dust tolerances are kept.
- Non-finite and non-numeric arguments: the checks for them in the kernel, the lot functions and event preparation have no counterpart in the model's types.
- Missing cells in history masks: masks are Boolean. The run builder at src/history_compact.cpp:116-130 terminates only on such masks.
- Wide and matrix output layouts, dimension names and the traced and untraced compilations of one loop: the model has one loop, with the trace.
- The twelve evidence planes of the long history layout and history request sealing: no further algorithm.
- Canonicalising supplied correction ids (R/availability-facts.R:2205-2218): links are modelled as already resolved.
- Buying and selling branches of the closing loops: the two mirrored branches are modelled as one branch with a signed direction.
- Quantity and price vectors of the lot store: modelled as one vector of optional lots, since both are always missing together.
- Adding an instrument to the lot store or kernel on first use: the instrument list is fixed before a run, as event preparation and the fold do.
- Event preparation from columns (R/accounting-replay.R:15-269): ordering by event number, metadata parsing and the derivation of deltas are input handling; what it lets through is `AccountingReplay.Prepared`.
- Recording pulses of projected fills (R/accounting-replay.R:490-495): a lookup of the next pulse.
- Building the pulse plan from targets (R/availability-economics.R:391-520): cost models and execution views are foreign to it; the allocator it calls is modelled.
- Decision and execution views of the provider: projections of the membership, status and lifetime answers.
- The lifetime winner rule: `Segments` and `SegmentCursor` are proved for every rule over the applicable rows, and instantiated for the status rule only.
- Several universes: membership headers and rows are those of one universe, after the filter both resolvers begin with.
- MembershipCursor.Membership.ResolveAt: asks for distinct set ids within a universe, which the source enforces when facts are built and again when a snapshot is sealed (R/availability-facts.R:241-246, R/availability-persistence.R:433-437).
- MembershipCursor.Membership.MembersAt: also asks that the key covers the instruments of the rows, as the provider's key does.
- SpotUnits.FillIsWhole: bounds quantities and lots by 2^52, the range in which the source's doubles hold whole shares exactly.
- ValuationClock.Clock.Advance: the statistics on index lookups are not modelled, and the shape checks on the prepared matrix are preconditions of the constructor.
- The knowledge times beside a membership answer: the direct resolver does not report them, so its notes carry in the model the knowledge time of the evidence they name.
- StatusValidation.ValidateStatusRows: when the interval check is skipped the intervals must have been checked before, as its caller does.
- Metrics, strategy evaluation, features, cost models, telemetry, printing and documentation: no part of the modelled algorithms.
- A knowledge cutoff apart from the effective cutoff: every caller leaves it at its default, the same instant, and so does the model.
- HeadlineLedger.LedgerFollowsUnlessParted: reads cash flows as moving no position, as those the package writes do.
