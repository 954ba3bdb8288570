# Worklog: a verified model of its client-side logic

The worklog repository keeps a person's working day: blocks of time, the tickets they belong to, and what
is billed. This project models the parts of it that compute something, in the web client
(`web/lib`, `web/components`), the performance tools (`perf`) and the inference report
(`scripts/verify_inference_report.py`), and proves what they promise for every input, every run or every
reachable state. `dafny verify dfyconfig.toml` checks all of it.

| file | what it models |
|---|---|
| `Tokens`, `EditScript`, `WordDiff`, `DiffTheorems` | the word diff of two descriptions: tokeniser, LCS table filled in place, greedy walk, run merging, overlap figure |
| `ChangeLog`, `ChangeTheorems` | folding the change log into one net change per block and kind |
| `UndoStrips` | the pausable Undo countdown of each card, over the browser's clock and timeouts; when its card holds it |
| `Board`, `BoardMoves` | optimistic moves on the ticket board, with requests in flight |
| `BoardUndo`, `BoardState` | where tickets have stood and where Undo leads back to; the board's state changed in place |
| `TicketUrl` | the ticket dialog mirrored in `?ticket=` over a session history of any length |
| `WorkerPool` | workers sharing one counter over a list of jobs |
| `MinuteSplit`, `AliasSearch` | contracted minutes, time inside a window, whole-word alias search, the one customer a text names |
| `LineDiff` | the multiset difference of two texts |
| `LineHours` | parsing, printing, stepping and saving billed hours |
| `BlockMenu`, `SectionLoader` | a block's neighbours on its day; the list of sections that failed to load |
| `Sorting`, `Seqs`, `Text`, `Options` | the stable sort, sequence facts, JavaScript's white space, missing values |

Code that changes state step by step is a method or a class here (`FillRow`, `WalkTable`, `Fold`, `GroupByDay`,
`Strips`, `MoveBoard`, `Dialog`, `Pass`, `PrintDiff`, `Editor`, `Sections` and others). Each is proved against a
function of its inputs or old state, and the lemmas are about those functions. Interleavings are runs: a sequence
of steps of any length, in any order the guards allow; each class replays any run and keeps its invariants.

## Where the code does less than one would expect

Each of these is proved with the exact condition under which the expectation holds.

- The overlap figure is documented as a share of the new text (`web/lib/changeSummary.ts:124`); the code divides by
  the larger of the two texts. It is the documented share exactly when nothing was kept or the new text is at least
  as long (`OverlapAsShareOfNewText`); `DroppedWordLowersOverlap` gives a family of texts where it is not.
- Past `MAX_DIFF_CELLS` the diff swaps the whole text. It is then a shortest script exactly when the texts share no
  token (`DiffIsShortest`), and a text of more than 200 tokens shares nothing with itself
  (`TextAgainstItself`, `LongTextDiffersFromItself`).
- Closing the dialog and opening another ticket before `history.back()` has settled brings the closed ticket back
  exactly when the close had pushed an entry to take back (`CloseThenOpenAtOnce`, `ClosedTicketComesBack`).
- Starting a move keeps the board's marks right exactly when its card is not pending or the move is to where it is
  shown (`StartNeedsItsGuard`), and an answer that settles a move leaves the pending mark right exactly when its call
  is the card's only one (`ReplyNeedsOneCall`). A pending card is not draggable, but its drag handler is not guarded
  (`web/components/TaskCard.tsx:125-126`): a drag of text selected inside it starts a second move, and a failure of the
  first then loses the mark (`OverlappingMovesLoseTheMark`).
- A call that never answers leaves its card pending for good; a card can still settle exactly when no call of its own
  was lost (`LostCallsStick`).
- The dialog offers Undo back to where the card is shown, not to where its ticket stands
  (`web/components/TaskBoard.tsx:380`). The strip starts at the ticket's own column exactly when no call of the card's is
  under way to another (`DialogUndoStarts`); a status told in the dialog during a move that is then refused leaves a strip back to a column
  the ticket was never in (`UndoToWhereItNeverStood`). Over every guarded run the strips are right at every moment if
  and only if each dialog change and each acknowledgement meets a condition on the board it meets
  (`UndoStaysTruthful`); after a dialog change during a move, `UndoAfterDialogDuringMove` tells for every answer whether
  they end right.
- A strip replaced, or a card drawn anew, under a pointer leaves the hold wrong: over a whole run strips are held
  exactly while their card is hovered or focused if and only if neither happens (`HoldFollowsPointer`).
- A block that ends before it starts takes time away: the total inside a window is the time shared with it exactly when
  no block runs backwards inside it (`OverlapSeconds`).
- A pool of no workers finishes at once with every answer missing (`FinishedRunIsMap`).

## Model

| member | source | states |
|---|---|---|
| `Text.StripIsCut` | web/lib/changeSummary.ts:32 | Trimming leaves the one cut of a text with nothing but space cut off at both ends and no space at either end of what is left. |
| `Text.SpacesListed` | web/lib/changeSummary.ts:84-130 | White space is the 25 characters that `\s` and `trim` know. |
| `Tokens.TokeniseIsUnique` | web/lib/changeSummary.ts:84-88 | The tokens of a text are the one way to cut it into non-empty runs of white space and words in turn whose join is the text: a list is the token list if and only if it has that shape and joins to the text. |
| `EditScript.LcsSteps` | web/lib/changeSummary.ts:95-101 | Neighbouring cells of the table never grow towards the end and differ by at most one, in both directions. |
| `EditScript.LcsZero` | web/lib/changeSummary.ts:95-101 | A cell of the table is zero if and only if the two suffixes share no token. |
| `EditScript.KeptAtMostLcs` | web/lib/changeSummary.ts:95-101 | No insert/delete script between two suffixes keeps more tokens than the table's cell for them, so taking every match is optimal. |
| `EditScript.WalkKeepsLcs` | web/lib/changeSummary.ts:108-120 | The greedy walk from any cell is a script between the two suffixes and keeps exactly the cell's number of tokens. |
| `EditScript.WalkIsShortest` | web/lib/changeSummary.ts:95-120 | No script between two token lists is shorter than the walk's or keeps more. |
| `EditScript.WalkIsFirstShortest` | web/lib/changeSummary.ts:108-120 | Every other shortest script has, at the first place where it differs from the walk, a later turn: keeping before deleting before inserting. |
| `EditScript.InsertLeavesNoDelete` | web/lib/changeSummary.ts:114-118 | After an insertion the walk inserts again or keeps; it never deletes until it has kept a token. |
| `WordDiff.FillRow` | web/lib/changeSummary.ts:98-100 | One row of the table, filled right to left, holds the LCS length of every pair of suffixes; rows above are untouched. |
| `WordDiff.FillTable` | web/lib/changeSummary.ts:96-101 | The table filled in place holds the LCS length of every pair of suffixes. |
| `WordDiff.WalkTable` | web/lib/changeSummary.ts:102-121 | The loop over the filled table terminates and pushes exactly the optimal walk's tokens, with runs merged. |
| `WordDiff.ComputeDiff` | web/lib/changeSummary.ts:86-122 | The imperative diff equals the diff the lemmas of `DiffTheorems` are about, whole-text fallback included. |
| `WordDiff.DiffRoundTrip` | web/lib/changeSummary.ts:84-122 | For all texts, kept and deleted parts join to the old text, kept and added parts to the new one. |
| `WordDiff.DiffDeletesFirst` | web/lib/changeSummary.ts:103-119 | For all texts no two neighbouring parts share a kind and an addition is followed only by kept text, so between kept parts there is at most one deletion and then at most one addition. |
| `DiffTheorems.PushKeeps` | web/lib/changeSummary.ts:103-107 | Merging a token into the last part keeps the parts' text cut exactly at tokens: each push adds one token to its kind. |
| `DiffTheorems.DiffCounts` | web/lib/changeSummary.ts:80-122 | The tokens the parts show as kept, deleted and added: while the token counts multiply to at most 40 000 as many are kept as the texts' LCS, past it none. |
| `DiffTheorems.DiffIsShortest` | web/lib/changeSummary.ts:80-122 | The parts show no more changed tokens than any script if and only if the token counts multiply to at most 40 000 or the texts share no token; up to there no script keeps more. |
| `DiffTheorems.DiffIsFirstShortest` | web/lib/changeSummary.ts:102-121 | Up to there the parts are the merged runs of one shortest script, and every other shortest script has a later turn where they first differ. |
| `DiffTheorems.OverlapIsKeptShare` | web/lib/changeSummary.ts:124-132 | Overlap of a diff is the kept non-space length over the larger text's, lies in [0, 1], is 1 for two blank texts, and is 1 if and only if all of the larger text was kept. |
| `DiffTheorems.OverlapAsShareOfNewText` | web/lib/changeSummary.ts:124-131 | The figure is the documented share of the new text if and only if nothing was kept or the new text is no shorter. |
| `DiffTheorems.DroppedWordLowersOverlap` | web/lib/changeSummary.ts:124-131 | Dropping the second of any two words keeps all of the new text and still gives an overlap below 1. |
| `DiffTheorems.TextAgainstItself` | web/lib/changeSummary.ts:80-94 | A text of at most 200 tokens against itself is one kept part with overlap 1; a longer one is swapped whole with overlap 0. |
| `DiffTheorems.LongTextDiffersFromItself` | web/lib/changeSummary.ts:80-94 | Texts of every number of tokens n exist, kept whole for n up to 200 and swapped whole from 201 on. |
| `Sorting.StableSortIsUnique` | web/lib/changeSummary.ts:37 | A stable sort has one answer, so modelling the engine's sort by insertion loses nothing. |
| `Sorting.SortCuts` | web/lib/changeSummary.ts:37 | Sorting a list is sorting the part below any bound followed by sorting the rest. |
| `ChangeLog.Fold` | web/lib/changeSummary.ts:36-53 | The loop over rows in id order ends with one group per block, in order of first touch, each holding the first-old/last-new nets of its rows. |
| `ChangeLog.ChangesSnoc` | web/lib/changeSummary.ts:44-52 | One more row replaces the new value and re-ranks the sources of its kind's net, or adds that net, and changes nothing else. |
| `ChangeLog.GroupByDay` | web/lib/changeSummary.ts:55-62 | The second loop keeps the blocks with a real change, under their days, days in order of first block. |
| `ChangeLog.Summarise` | web/lib/changeSummary.ts:35-69 | The two passes and the final ordering equal the summary the lemmas are about. |
| `ChangeTheorems.BlankReadsAsNone` | web/lib/changeSummary.ts:31-32 | A value counts as none if and only if it is missing or all white space; any other value stands as written. |
| `ChangeTheorems.ReportsExactlyTheNets` | web/lib/changeSummary.ts:35-69 | For every log, a net change is listed for a block if and only if it is the net of that block's rows of its kind and its old and new differ. |
| `ChangeTheorems.FirstOldLastNew` | web/lib/changeSummary.ts:30-58 | For each block the description change runs over the rows whose field is the description, the billing change over those whose field is customer, deild or split: from the lowest-id row's old value to the highest-id row's new value, last source the highest-id row's, reported if and only if the two values differ. |
| `ChangeTheorems.NoRowsNoChange` | web/lib/changeSummary.ts:44-58 | A change of a kind is reported only for a block that has a row of one of that kind's fields. |
| `ChangeTheorems.SummaryIgnoresOrder` | web/lib/changeSummary.ts:37 | With distinct ids every permutation of the log gives the same summary. |
| `ChangeTheorems.NetsCompose` | web/lib/changeSummary.ts:37-53 | Cut the log at any id: the earlier part's net composed with the later part's is the whole log's, sources merged by last touch. |
| `ChangeTheorems.SourcesByLastRow` | web/lib/changeSummary.ts:50-51 | Sources list exactly the authors of the rows, each once, in order of their last row. |
| `ChangeTheorems.SummaryOrder` | web/lib/changeSummary.ts:57-68 | When the order of days tells the log's days apart: days newest first and each once; a day's blocks in clock order, those that start together in the order first touched, all of that day, each with changes, the description change first. |
| `ChangeTheorems.KeysByFirstTouch` | web/lib/changeSummary.ts:36-43 | The blocks' groups stand in the order of their blocks' first rows. |
| `ChangeTheorems.CountIsBlocksReported` | web/lib/changeSummary.ts:71-73 | For every log and every ordering of days, the count is the number of distinct blocks with something to report. |
| `ChangeTheorems.KeyNamesBlock` | web/lib/changeSummary.ts:38 | When no day holds a bar, two rows share the map key if and only if they name the same block. |
| `UndoStrips.StripTellsUnheldTime` | web/components/TaskBoard.tsx:55-83 | In any history a strip shows if and only if its latest offer has not been ended since, and then carries that offer's columns, the clock time not held since it, and whether it is held now. |
| `UndoStrips.Strips.OfferUndo` | web/components/TaskBoard.tsx:68-73 | An offer between different columns replaces the card's strip by a fresh running one; other cards are untouched. |
| `UndoStrips.Strips.HoldUndo` | web/components/TaskBoard.tsx:74-83 | Holding freezes the card's un-held time and releasing resumes it from what was left, however often repeated. |
| `UndoStrips.Strips.ClearStrip` | web/components/TaskBoard.tsx:59-63 | Clearing removes the card's strip, timer and live timeout together. |
| `UndoStrips.Strips.Fire` | web/components/TaskBoard.tsx:64-67 | When a timeout runs, its card has shown un-held for at least `ms`, exactly `ms` if the browser is on time, and only that card's strip goes. |
| `UndoStrips.Strips.Replay` | web/components/TaskBoard.tsx:56-86 | Over every run of offers, holds, releases, clears, ticks and expiries, strips and timers match, each live timeout belongs to exactly one timer, and every card shows what its own stopwatch shows. |
| `UndoStrips.StripLastsItsTime` | web/components/TaskBoard.tsx:55-86 | While timeouts fire on time no strip outlives `ms` of un-held time, and a running strip's timeout is due exactly when its `ms` are used up. |
| `UndoStrips.CardShowsItsStrip` | web/components/TaskCard.tsx:75-94 | Over any run of hovers, focuses, offers and redraws, a card's strip is the countdown's, driven by exactly the holds the card passes on. |
| `UndoStrips.PassesOnTheRun` | web/components/TaskCard.tsx:75-94 | Holds aside, what a card passes on is exactly the run's offers, ends and elapsed time, in their order. |
| `UndoStrips.HoldFollowsPointer` | web/components/TaskCard.tsx:75-94 | Over a whole run a card's strip is held exactly while the card is hovered or focused, if and only if no strip was replaced and no card drawn anew while pointed at with its strip showing. |
| `Board.ColumnsByName` | web/lib/taskBoard.ts:18-24 | Each column by what leads to it: a name holding "block", else one holding "verif", else the category, with to-do for none. |
| `Board.WaysIn` | web/lib/taskBoard.ts:27-28 | The ways into a column are exactly the offered transitions with a category that land there, in the order offered. |
| `BoardMoves.MovesStayConsistent` | web/components/TaskBoard.tsx:89-180 | Over every guarded run, calls lost or not, a card has an optimistic column exactly while pending, which is exactly while its one call is unanswered, and it is that call's target; a card is never pending and in error; the card being chosen for is not pending. |
| `BoardMoves.StepsTouchOneCard` | web/components/TaskBoard.tsx:89-180 | Every step leaves every other card's status, column, mark, error and Undo strip as they were. |
| `BoardMoves.KnownStartIsAnswered` | web/components/TaskBoard.tsx:154-157 | A start that already knows the transitions ends as if it had asked Jira and been answered with them. |
| `BoardMoves.MenuMove` | web/components/TaskMoveMenu.tsx:78-82 | A menu choice with the transitions known: one way in, and the card waits in the target with that one transition asked for; several, and a chooser for the target opens; none, and an error names the target. |
| `BoardMoves.StartNeedsItsGuard` | web/components/TaskCard.tsx:125-149 | From a consistent board, starting a move keeps it so if and only if the card is not pending, not on the board, or already shown in the target. |
| `BoardUndo.StatusIsLastAcknowledged` | web/components/TaskBoard.tsx:121-127 | Over every run, guarded or not, each ticket's status is the last one Jira acknowledged for it. |
| `BoardUndo.SettledCardsStandWhereAcknowledged` | web/components/TaskBoard.tsx:299 | A card that is not pending stands in the column of its last acknowledged status, whatever moves were tried on it. |
| `BoardUndo.MovesRememberWhereTheyBegan` | web/components/TaskBoard.tsx:149-180 | Over every guarded run each call, and the chooser, carries the column its card was acknowledged in when its move began. |
| `BoardUndo.FailureNamesTheTarget` | web/components/TaskBoard.tsx:102-180 | In every guarded run a refused move shows its reason, if there is one, with the column the card was shown in, and the card stands where its ticket does; the offered ways in decide between going on, choosing for that column, and refusing. |
| `BoardUndo.UndoLeadsBack` | web/components/TaskBoard.tsx:121-127 | In every guarded run, after a successful move the card stands where Jira says, and Undo leads back to the column the move began in, one the ticket was acknowledged in, unless it stands there again; other strips are untouched. |
| `BoardUndo.UndoStaysTruthful` | web/components/TaskBoard.tsx:68-147 | Over every guarded run each strip leads from a column its ticket was acknowledged in earlier to the other one it stands in, at every moment, if and only if each dialog change and acknowledgement meets its condition. |
| `BoardUndo.PatientRunsStayRight` | web/components/TaskBoard.tsx:118-147 | It is enough that the dialog leaves pending cards alone; then no pending card carries a strip either. |
| `BoardUndo.DialogUndoStarts` | web/components/TaskBoard.tsx:379-381 | In every guarded run the strip the dialog offers starts at the ticket's own column if and only if no call of the card's is under way to another column. |
| `BoardUndo.UndoToWhereItNeverStood` | web/components/TaskBoard.tsx:379-381 | From every guarded run three steps more, for any settled card and any column its ticket never stood in, leave a strip back to that column. |
| `BoardUndo.UndoAfterDialogDuringMove` | web/components/TaskBoard.tsx:379-381 | After a dialog change during a move and any settling answer, the exact condition for the strips to be right: acknowledged elsewhere than it began, or the strip left by the dialog leads from a column the ticket stood in to its column. |
| `BoardMoves.ReplyNeedsOneCall` | web/components/TaskBoard.tsx:102-109 | Every answer that settles a move, good or bad, leaves each pending mark matching its calls if and only if no other call of its card is unanswered. |
| `BoardMoves.OverlappingMovesLoseTheMark` | web/components/TaskCard.tsx:125-126 | Two moves of one card in turn, the first failing, show the card settled with a call still in flight. |
| `BoardMoves.LostCallsStick` | web/components/TaskBoard.tsx:149-155 | After any guarded run with losses, some guarded run settles a card if and only if no call of its own was lost; one that lost its call is pending. |
| `BoardState.MoveBoard.Replay` | web/components/TaskBoard.tsx:89-187 | The fields changed in place by any run of moves, answers, choices, dismissals, dialog changes and losses are the run's; a guarded run leaves them consistent, each settled card where it was acknowledged, and the strips right if every step met its condition. |
| `TicketUrl.DialogFollowsAddress` | web/components/useTicketUrl.ts:26-56 | From any history and after any run, traversals interleaved in any way, once none is pending the open ticket is exactly the board ticket the address names. |
| `TicketUrl.PushedSitsAboveTheBoard` | web/components/useTicketUrl.ts:44-55 | When each traversal settles before the next action, the entry below a pushed one names no board ticket. |
| `TicketUrl.OneBackCloses` | web/components/useTicketUrl.ts:44-55 | Then one Back and Close both end on the same history with no ticket open or named, and Forward opens the ticket again. |
| `TicketUrl.CloseThenOpenAtOnce` | web/components/useTicketUrl.ts:46-54 | Opening another ticket before a close has settled keeps it open if and only if the close had no entry to take back; otherwise the closed ticket returns. |
| `TicketUrl.ClosedTicketComesBack` | web/components/useTicketUrl.ts:46-54 | From a plain board page: open A, close it, open B at once, and the dialog ends on A. |
| `TicketUrl.Dialog.Replay` | web/components/useTicketUrl.ts:26-56 | The hook's fields after any run of opens, closes, Back, Forward and traversals are the run's; once nothing is pending the dialog shows what the address names, and if every action waited a pushed entry still sits above one that names no board ticket. |
| `WorkerPool.EveryMoment` | perf/decide.ts:41-54 | At every moment of every interleaving each job below the counter has been asked exactly once and in order, is answered or awaited by one worker, and at most `conc` requests are in flight. |
| `WorkerPool.RunsEnd` | perf/decide.ts:45-52 | A run can go on unless every worker has stopped; with a worker it has finished if and only if it took two steps a job and one a worker. |
| `WorkerPool.FinishedRunIsMap` | perf/decide.ts:41-54 | With a deterministic classifier a finished run's answers are the sequential map if and only if there was a worker or nothing to do. |
| `WorkerPool.Pass` | perf/decide.ts:41-54 | The pass over the shared counter and answers array terminates under any scheduler with the sequential map, or with no answers when there are no workers. |
| `MinuteSplit.Split` | scripts/verify_inference_report.py:53-66 | The loop's two counts add up to the block's minutes and the first is the contracted count, in closed form; an empty or reversed block gives nothing. |
| `MinuteSplit.CountClosed` | scripts/verify_inference_report.py:20-66 | Contracted minutes counted one by one equal a closed form in which every whole day contributes 170. |
| `MinuteSplit.CutsAndShifts` | scripts/verify_inference_report.py:53-66 | The count is additive over any cut and unchanged by moving the interval whole days. |
| `MinuteSplit.OverlapSeconds` | scripts/verify_inference_report.py:69-91 | Over a window that does not end before it starts, the clamped total is the number of instants the blocks share with it less those that blocks running backwards inside it take away; it is the shared time if and only if there are none. |
| `AliasSearch.AliasMatches` | scripts/verify_inference_report.py:102-122 | The search terminates and succeeds if and only if some occurrence of the alias, overlapping ones included, has an edge or a non-alphanumeric on both sides. |
| `AliasSearch.OverlappingHit` | scripts/verify_inference_report.py:113-122 | A family of texts whose one whole-word hit overlaps an earlier failed occurrence, found because the search resumes one past it. |
| `AliasSearch.CustomerInText` | scripts/verify_inference_report.py:132-140 | A name is returned if and only if exactly one distinct customer name hits, and it is that one, whatever the order or repetition of rows. |
| `LineDiff.PrintDiff` | perf/lib.ts:154-162 | The counting map, decremented in a loop, never goes negative and yields the surplus lines of each side in the order printed. |
| `LineDiff.DifferenceLists` | perf/lib.ts:152-162 | The two lists are the two multiset differences. |
| `LineDiff.SurplusInOrder` | perf/lib.ts:155-159 | The candidate's list is its lines standing past as many copies as the base holds, in the candidate's order. |
| `LineDiff.MissingInOrder` | perf/lib.ts:160-161 | The base's list groups equal lines, in the order the lines first stand in the base. |
| `LineDiff.DifferenceIsExact` | perf/lib.ts:152-162 | Each text is a common multiset plus its own list, the lists share no line, and both are empty if and only if the texts hold the same lines in some order. |
| `LineHours.ParseShape` | web/components/LineHours.tsx:13-19 | A draft reads as given seconds if and only if, trimmed, it is digits, an optional decimal part after a point or comma, and an optional unit worth that; it means tracked hours if and only if it is blank. |
| `LineHours.DecimalIsNearest` | web/components/LineHours.tsx:18 | A decimal is worth its exact hours to the nearest second, a half going up. |
| `LineHours.DigitsArePositional` | web/components/LineHours.tsx:17-18 | Digits are read positionally, one digit as its distance from 0. |
| `LineHours.WhichMessage` | web/components/LineHours.tsx:28-35 | Which message an invalid draft gets: more than a day, a suggestion within the day, otherwise a request for hours. |
| `LineHours.ValidIsHalfHours` | web/components/LineHours.tsx:20-25 | A valid figure is one to forty-eight half hours. |
| `LineHours.HalvesRoundTrip` | web/components/LineHours.tsx:126-134 | Every half-hour figure the editor prints reads back as that many half hours. |
| `LineHours.StepIsNextMultiple` | web/components/LineHours.tsx:125-131 | A step lands on the nearest half-hour multiple strictly in its direction, clamped to [0.5 h, 24 h]. |
| `LineHours.SuggestionIsNearest` | web/components/LineHours.tsx:28-35 | For a draft within the day the suggested figure reads as a valid value and no valid value is closer. |
| `LineHours.Editor.Step` | web/components/LineHours.tsx:125-134 | After an arrow press from any draft the draft reads as a valid override, the clamped next half hour that way, and the error is gone. |
| `LineHours.Editor.Commit` | web/components/LineHours.tsx:92-113 | A value is sent if and only if no save is under way, the draft is valid and it is neither stored nor, without an override, in effect; an invalid one stays with its message on the keyboard and is dropped otherwise. |
| `LineHours.Editor.Replay` | web/components/LineHours.tsx:81-134 | Over every run of clicks, edits, arrow presses, leaves, replies and re-reads, the values sent are exactly those of the leaves that meet this, and `saving` holds exactly while one save is in flight, never two. |
| `BlockMenu.NeighboursAreNearest` | web/components/BlockContextMenu.tsx:77-86 | Next is a block if and only if it is the nearest live block of the day strictly after in clock-then-id order; previous likewise before. |
| `BlockMenu.NeighboursAreMutual` | web/components/BlockContextMenu.tsx:77-86 | Among live blocks of a day one is another's next if and only if that one is its previous, equal starts included. |
| `BlockMenu.NextWalksTheDay` | web/components/BlockContextMenu.tsx:77-86 | Following next from the first block goes through every live block of the day exactly once, and previous goes back. |
| `BlockMenu.MergeIsOffered` | web/components/BlockContextMenu.tsx:88-93 | For blocks with a length, a merge is offered if and only if there is a neighbour, neither is locked and no instant lies in both; a lock is the reason given whenever there is one. |
| `BlockMenu.OverlapIsShared` | web/components/useIgnoreActions.ts:42-43 | Two blocks overlap if and only if some instant is in both or one without length lies inside the other. |
| `BlockMenu.MergeOffersAgree` | web/components/BlockContextMenu.tsx:88-93 | Merge with next on a block and merge with previous on its next are offered or refused for the same reason. |
| `SectionLoader.FailuresIgnoreSettleOrder` | web/components/DayLoadNotice.tsx:1-12 | Two loads that declare the same sections end with the same list if and only if the same names failed equally often, whatever the order promises settled and whether or not names repeat. |
| `SectionLoader.FailedIsDeclarationOrder` | web/components/DayLoadNotice.tsx:1-12 | With distinct names the list is at every moment the names that have failed so far, in declaration order. |
| `SectionLoader.Sections.Replay` | web/components/DayLoadNotice.tsx:1-12 | The arrays pushed to and sorted in place by any interleaving are the run's; with distinct names the list holds exactly the names that failed, in declaration order. |

## Left out

- Rendering, focus return, spoken announcements, the landing highlight and drag state: user interface without a
  computable claim.
- `web/lib/daemon*.ts`, the server actions and the Firefox extension: transport; their answers are inputs here.
- SQL, files, processes and HTTP in `perf` and in the report script: the modelled functions take the rows.
- `stats`, `maskText`, `redescribeBlockedReason`, argument parsing: short case splits that would only add easy members.
- The Rust crates: outside the client-side logic modelled here.
- Text: strings hold Unicode scalar values; `length` counts UTF-16 units, but texts with unpaired surrogates are not
  represented.
- LineHours.ParseHours: decimals are exact fractions rounded to the nearest second, not binary floating point; a draft of
  over 308 digits is infinite in JavaScript and so "not hours", here a number of seconds over a day.
- LineHours.HalvesRoundTrip: figures from 10^21 hours are printed with an exponent by JavaScript, in full here.
- LineHours.Editor.Replay: the text a click puts in the box is an input, since stored seconds need not be half hours.
- DiffTheorems.Overlap: an exact quotient, not a floating-point one.
- ChangeLog.Calendar: `Date.parse` and `localeCompare` are any functions to numbers; unparsable times are not modelled.
- Board.ColumnOf: status names are taken in lower case, the only form the source matches them in.
- AliasSearch.Script: white space, alphanumeric and lower-casing are any functions, so no Unicode table is needed.
- UndoStrips.HoldFollowsPointer: effects run at once after the change that causes them; which browser events reach an
  inert or removed card is an input.
- BoardMoves.MovesStayConsistent: state updates are immediate; React batching and unmounting are not modelled, and rows
  are a map, so a board with two rows of one key is not represented.
- TicketUrl.DialogFollowsAddress: the set of tickets on the board is fixed; only the `ticket` parameter of an address is
  kept; a traversal beyond either end of the history leaves the page and does nothing here; a history API that throws
  is not modelled.
- WorkerPool.Pass: a classifier that throws ends the whole pass in the source and is not modelled; a worker's reply and its next
  turn are two steps here, one in the event loop, so the model has more interleavings.
- MinuteSplit.OverlapSeconds: a window that ends before it starts is not modelled; compares instants where the query compares timestamp strings.
