# Tennis tournament core, modelled in Dafny

This project models the in-memory core of a console tennis tournament manager written in C++, and proves properties of that model. The core has five parts:

- **Scheduling engine** (`src/scheduleMatches.cpp`):
  - round-robin and knockout match generation;
  - stage-completion and stage-existence checks;
  - recording a best-of-three result, and automatic simulation of a stage;
  - winner collection through the bounded max-heap `WinnerPriorityQueue`;
  - progression from the Qualifier through the Semifinal to the Final.
- **Linked stack** `Stack<T>` (`Stack.h`), which backs the match history.
- **Match history**, in two versions:
  - the validating one (`src/MatchHistory.cpp`): string validators, duplicate-ID replacement, searches that pop into a temporary stack and restore it, and a CSV save/load with row checks;
  - the older, unvalidated one (`MatchHistory.cpp`).
- **Ticket office** (`src/TicketManager.cpp`):
  - a VIP-priority array queue with shift insertion;
  - first-pending confirmation and the sold count;
  - the ticket file line format;
  - `generateTicketID` with its global counter;
  - the capacity check of `purchaseTicket`.
- **Player withdrawals** (`src/PlayerWithdrawalManager.cpp`):
  - a linked FIFO `PlayerQueue`;
  - the status transitions over the match list (cancel, restore, validate, replace a withdrawn player) and the status change dispatcher;
  - the players and schedule file line formats;
  - `extractWithdrawReason`;
  - the case-insensitive Levenshtein table.

Modules: `Base` (shared string, number and stream helpers), `LinkedStack`, `WinnerQueue`, `Schedule`, `Winners`, `Progression`, `History`, `LegacyHistory`, `Tickets`, `Withdrawal`.

## How the source is represented

- **Players and matches.** In the scheduling engine, `Player*` and `TournamentMatch*` become indices into `seq`s held in a `Board` value. `matchCount` and `matchIDCounter`, which the source passes by reference, become inputs and outputs.
- **Strings as datatypes.** The stage strings ("Qualifier", "Semifinal", "Final") and the engine's status strings ("UPCOMING", "Completed") become datatypes. The engine writes no other values.
- **Scores.** A recorded score is kept as its set counts and rendered with `std::to_string`.
- **Classes kept as classes.** They keep their fields and update them in place:
  - `Stack<T>`: linked nodes, with ghost `Contents`/`Nodes` for the proofs;
  - `WinnerPriorityQueue`: an `array` of 50 slots plus `size`;
  - `TicketQueue`: an `array` of 100 tickets plus `size`;
  - `PlayerQueue`: linked nodes;
  - both `MatchHistory` classes, each over a `Stack<Match>`;
  - `TournamentSystem`.
- **Withdrawal lists.** The player and match lists of `TournamentSystem` are `seq` fields in list order.
- **Files.** A file becomes `Option<seq<string>>`: `None` means it failed to open, and otherwise it is the file's lines. `std::getline`, `std::ws` and `std::stoi` are modelled on those lines.
- **Console and randomness.** Console answers (set counts, the replace choice, replacement IDs, status menu choices) become parameters. `std::rand()` becomes a parameter `rand: nat -> nat` read at a cursor.

## Model

| member | source | states |
|---|---|---|
| Base.LowerIdempotent | src/PlayerWithdrawalManager.cpp:43-49 | lower-casing a string a second time changes nothing (C-locale `tolower`) |
| Base.ContainsIsOccurrence | src/MatchHistory.cpp:253-254 | `find != npos` holds iff the needle occurs at some position of the text |
| Base.IndexOf | src/TicketManager.cpp:98-100 | the index of the first occurrence of a character, or the length when there is none; no earlier index holds it |
| Base.ReverseReverse | MatchHistory.cpp:160-187 | reversing twice restores the sequence (push order against saved order) |
| Base.StoiOfDigits | src/MatchHistory.cpp:449 | `stoi` of a digit string within int range is its decimal value |
| Base.StoiOfIntToString | src/scheduleMatches.cpp:228 | `stoi(to_string(n))` is n for every 32-bit n |
| Base.GetLine | src/MatchHistory.cpp:444-488 | `getline` on a good stream with input left yields the text up to the first delimiter and continues after it; at end of input it sets fail and yields ""; a failed stream keeps the old token |
| Base.SkipWs | src/PlayerWithdrawalManager.cpp:164-168 | `std::ws` on a good stream skips exactly the leading whitespace of the remaining input |
| Base.FieldRead | src/MatchHistory.cpp:444-460 | a comma-free field followed by a comma is read back exactly by a `getline(..., ',')` |
| LinkedStack.Node.constructor | Stack.h:16 | a node holds the given value and next pointer; it takes the successor as an argument, folding in the `newNode->next = top` relink that `push` does right after allocation (Stack.h:125-126) |
| LinkedStack.Stack.constructor | Stack.h:24 | a new stack is empty |
| LinkedStack.Stack.Copy | Stack.h:61-85 | the copy holds the same elements in the same top-to-bottom order |
| LinkedStack.Stack.Assign | Stack.h:87-120 | after assignment the elements equal the other stack's old elements, in order; self-assignment changes nothing |
| LinkedStack.Stack.PushAllOf | Stack.h:67-82 | the shared copy loops rebuild the other stack's sequence, bottom element pushed first |
| LinkedStack.Stack.Push | Stack.h:122-132 | the value goes on top, the rest is unchanged, and size grows by one |
| LinkedStack.Stack.Pop | Stack.h:134-147 | on an empty stack raises "Cannot pop from an empty stack." and changes nothing; otherwise returns the top and leaves the remaining elements |
| LinkedStack.Stack.IsEmpty | Stack.h:149-152 | true iff there are no elements, iff `top` is null |
| LinkedStack.Stack.GetSize | Stack.h:154-157 | size equals the number of linked nodes |
| LinkedStack.Stack.Peek | Stack.h:159-166 | raises on an empty stack; otherwise returns the top; never changes the stack |
| LinkedStack.Stack.Clear | Stack.h:168-179 | the stack becomes empty with size 0 |
| LinkedStack.PushPeekPop | Stack.h:122-166 | after pushing x, peek and then pop both give x, and the stack is as before the push |
| WinnerQueue.WinnerPriorityQueue.constructor | src/scheduleMatches.cpp:14-16 | a new queue is empty, with 50 slots |
| WinnerQueue.WinnerPriorityQueue.IsEmpty | src/scheduleMatches.cpp:67 | true iff the queue holds no entry |
| WinnerQueue.WinnerPriorityQueue.GetSize | src/scheduleMatches.cpp:90 | the number of entries |
| WinnerQueue.WinnerPriorityQueue.Enqueue | src/scheduleMatches.cpp:69-74 | below 50 entries adds exactly this entry (multiset) and keeps the heap; at 50 changes nothing |
| WinnerQueue.WinnerPriorityQueue.HeapifyUp | src/scheduleMatches.cpp:32-42 | sifting the last slot up restores the max-heap order and keeps the multiset of entries |
| WinnerQueue.WinnerPriorityQueue.SwapSlots | src/scheduleMatches.cpp:26-30 | exchanges two slots of the occupied prefix, leaving the other slots of it alone |
| WinnerQueue.WinnerPriorityQueue.HeapifyDown | src/scheduleMatches.cpp:44-65 | sifting the root down restores the max-heap order and keeps the multiset |
| WinnerQueue.WinnerPriorityQueue.Dequeue | src/scheduleMatches.cpp:76-88 | empty: null and nothing changes; otherwise returns an entry ranked at least as high as every entry, removes exactly it, and keeps the heap, so successive results do not increase |
| WinnerQueue.RootIsMaximal | src/scheduleMatches.cpp:32-65 | in a max-heap the root ranks at least as high as every slot (wins, then points) |
| WinnerQueue.RootIsMaximalInContents | src/scheduleMatches.cpp:76-88 | the root ranks at least as high as every entry of the queue's contents |
| Schedule.EqualsIgnoreCase | src/scheduleMatches.cpp:5-11 | true iff the two strings are equal after lower-casing each character |
| Schedule.AreAllMatchesCompleted | src/scheduleMatches.cpp:411-418 | true iff every match of the stage is Completed; true when the stage has no match |
| Schedule.StageExists | src/scheduleMatches.cpp:244-251 | true iff some match belongs to the stage |
| Schedule.AbsentStageIsCompleted | src/scheduleMatches.cpp:255 | a stage with no matches counts as completed, which is why progression also asks that the next stage not exist |
| Schedule.PairsCount | src/scheduleMatches.cpp:401-408 | the loop enumerates n(n-1)/2 pairs |
| Schedule.PairsAreAllPairs | src/scheduleMatches.cpp:401-408 | every enumerated pair has its lower index first, every pair a<b below n occurs, and none repeats |
| Schedule.GenerateRoundRobinMatches | src/scheduleMatches.cpp:401-408 | appends one Upcoming match per pair in loop order, stopping at maxMatches; IDs run on from the counter, which advances by the number appended |
| Schedule.GenerateRows | src/scheduleMatches.cpp:402-407 | the outer loop appends the rows' pairs in order up to the room left |
| Schedule.AppendRow | src/scheduleMatches.cpp:403-406 | the inner loop appends the row's pairs (i, j) for j > i up to the room left |
| Schedule.KnockoutPairs | src/scheduleMatches.cpp:505-509 | floor(k/2) pairs, pair i being advancers 2i and 2i+1 |
| Schedule.KnockoutSlots | src/scheduleMatches.cpp:505-514 | the players of the pairs, in order, are the advancers without the last one when their count is odd (the bye) |
| Schedule.GenerateKnockoutMatches | src/scheduleMatches.cpp:498-515 | fewer than two advancers: nothing; otherwise appends those pairs as Upcoming matches of the stage, up to maxMatches, with consecutive IDs |
| Schedule.TallySettles | src/scheduleMatches.cpp:221 | an accepted tally (2-0, 2-1, 0-2, 1-2) settles the match as Completed with that score, and the side with two sets is the winner |
| Schedule.ScoreTexts | src/scheduleMatches.cpp:228 | the four accepted tallies are written "2-0", "2-1", "0-2" and "1-2" |
| Schedule.AddAll | src/scheduleMatches.cpp:151-153 | a full history (100 entries) is unchanged; otherwise the matches are appended in order until it is full |
| Schedule.CompleteShape | src/scheduleMatches.cpp:228-240 | recording keeps the roster and match count and changes only the chosen match |
| Schedule.CompleteFacts | src/scheduleMatches.cpp:228-240 | recording changes only the chosen match and keeps the roster; the total of wins and the total of losses each rise by exactly one; the match joins the history |
| Schedule.StartMatch | src/scheduleMatches.cpp:194-241 | an out-of-range choice or a Completed match changes nothing; otherwise only the chosen match changes, settled with the accepted tally and the side with two sets as winner |
| Schedule.StartMatchCounts | src/scheduleMatches.cpp:237-240 | the winner's wins and the loser's losses each rise by one, every other counter is unchanged, and the match joins the history |
| Schedule.StartMatchOnce | src/scheduleMatches.cpp:198-200 | recording the same match a second time, with any tally, changes nothing |
| Schedule.Tally | src/scheduleMatches.cpp:309-311 | the two draws give only accepted tallies |
| Schedule.SimulateStage | src/scheduleMatches.cpp:305-321 | after the pass every match of the stage is Completed; only pending matches of the stage change; wins and losses rise by one per settled match; those matches join the history in order; two rand() calls per settled match |
| Schedule.AutoSimulateStageMatches | src/scheduleMatches.cpp:305-323 | the loop computes the specified simulation of every pending match of the stage, in array order |
| Winners.AddNewFacts | src/scheduleMatches.cpp:437-444 | adding a player skips one already added and otherwise appends it |
| Winners.ParticipantsShape | src/scheduleMatches.cpp:430-446 | Qualifier participants are distinct, each plays in the stage, and every player of a stage match is present |
| Winners.WinsOfPositive | src/scheduleMatches.cpp:449-458 | a player's stage win count is positive iff the player won some completed match of that stage |
| Winners.CollectParticipants | src/scheduleMatches.cpp:426-446 | the loop yields exactly the specified participant list |
| Winners.CountWins | src/scheduleMatches.cpp:449-458 | the wins table is exactly the specified win count per ID |
| Winners.EnqueueParticipants | src/scheduleMatches.cpp:461-464 | the queue gains one entry per participant (up to 50) with that player's wins |
| Winners.TakeOne | src/scheduleMatches.cpp:470-474 | one dequeue appends the top-ranked entry to the winners |
| Winners.TakeTop | src/scheduleMatches.cpp:467-475 | takes min(maxAdvancing, queue size) entries, in non-increasing rank, each ranked at least as high as every entry left; exactly those leave the queue |
| Winners.EmptyQueueRanking | src/scheduleMatches.cpp:460-475 | with an empty queue on entry the chosen players are distinct participants, each ranked at least as high as every participant left behind |
| Winners.CollectQualifier | src/scheduleMatches.cpp:424-475 | the Qualifier branch enqueues every participant with its wins and returns the top min(participants, 4, maxWinners) of the queue in rank order |
| Winners.KnockoutWinnersShape | src/scheduleMatches.cpp:476-492 | knockout winners are distinct winners of completed stage matches, at most maxWinners; below that bound every such winner is included |
| Winners.CollectKnockout | src/scheduleMatches.cpp:478-491 | the loop yields exactly the specified knockout winner list |
| Winners.CollectWinners | src/scheduleMatches.cpp:421-495 | dispatches on the stage: ranked selection for the Qualifier, deduplicated winners otherwise |
| Progression.GenerateStage | src/scheduleMatches.cpp:334 | generating the next stage from the given advancers appends exactly their knockout pairs, as new Upcoming matches of that stage with consecutive IDs, up to the room left |
| Progression.ProgressStage | src/scheduleMatches.cpp:255-269 | the next stage is generated only when the previous stage is complete and the next does not exist yet, and it is generated whenever that holds with at least two advancers and room left |
| Progression.ChampionExists | src/scheduleMatches.cpp:271-278 | a champion is reported iff some Final match has a winner, and it is the first such winner |
| Progression.FindChampion | src/scheduleMatches.cpp:272-277 | the scan returns that first Final winner |
| Progression.HandlePostMatchProgression | src/scheduleMatches.cpp:254-279 | each stage is generated at most once and only after the previous one is complete; matches are only appended; the Semifinal is generated whenever the Qualifier is complete with at least two participants and room left, whatever the queue held, and the Final likewise with at least two Semifinal winners |
| Progression.PlayStage | src/scheduleMatches.cpp:331-342 | one stage step of the full simulation: the stage is auto-simulated as specified; the advancers are collectWinners' choice on the simulated board (the ranked choice for the Qualifier, the knockout winners otherwise); the match array becomes the simulated one plus exactly the knockout pairs that fit, as new matches of the next stage with consecutive IDs, whether or not that stage already has matches; the rand() cursor is the simulation's |
| Progression.QualifierFour | src/scheduleMatches.cpp:460-475 | with four or more participants and an empty queue the Qualifier sends on four distinct participants, the first two sharing no ID with the last two |
| Progression.TwoKnockoutWinners | src/scheduleMatches.cpp:476-492 | two completed matches whose winners have different IDs give two knockout winners when two are wanted |
| Progression.FinalistsFromSemifinals | src/scheduleMatches.cpp:337-340 | two unplayed Semifinals between players of distinct IDs, once simulated, give two Semifinal winners and still no Final |
| Progression.FinalReached | src/scheduleMatches.cpp:325-342 | from a board without knockout matches, with four or more Qualifier participants, room for three more matches and an empty queue, the two stage steps and the last simulation leave a Final |
| Progression.AutoSimulateFullTournament | src/scheduleMatches.cpp:325-353 | afterwards every Qualifier, Semifinal and Final match is Completed; a champion is reported iff a Final match exists; from a board without knockout matches, with four or more Qualifier participants, room for three more matches and an empty queue, a champion is always reported |
| Progression.SimulatedReady | src/scheduleMatches.cpp:305-321 | simulating a stage keeps the board well formed |
| Progression.KnockoutWinnersExist | src/scheduleMatches.cpp:476-492 | a non-empty knockout winner list means the stage has matches |
| History.Trim | src/MatchHistory.cpp:11-16 | the result is a substring of the input with no trim character at either end, and no more was removed; empty iff the text is all " \t\n\r" |
| History.TrimUnique | src/MatchHistory.cpp:11-16 | that characterisation determines the result |
| History.TrimIdempotent | src/MatchHistory.cpp:11-16 | trimming twice equals trimming once |
| History.ValidNameChars | src/MatchHistory.cpp:19-28 | a valid name holds only letters, spaces, '.', '-' and trim characters, and some non-space name character; a name of such characters only that is not all spaces is valid |
| History.ValidNameTrimmed | src/MatchHistory.cpp:19-28 | a name is valid iff its trimmed form is |
| History.IsValidScore | src/MatchHistory.cpp:36-57 | the loop accepts iff the trimmed text is non-empty, only digits, '-' and ' ', with at least one digit and one separator |
| History.EngineScoresValid | src/MatchHistory.cpp:36-57 | every score text the engine records passes that check |
| History.IsValidFilename | src/MatchHistory.cpp:111-121 | valid iff non-empty and free of `\/:*?"<>\|` |
| History.WithoutMembers | src/MatchHistory.cpp:159-172 | removing an ID keeps exactly the entries with other IDs, none with that ID is left, and an absent ID changes nothing |
| History.WithoutUnique | src/MatchHistory.cpp:159-172 | with unique IDs, removing a present ID drops exactly one entry and keeps the IDs unique |
| History.AddNewKeepsUnique | src/MatchHistory.cpp:129-177 | pushing a new ID keeps IDs unique |
| History.ReplaceKeepsUnique | src/MatchHistory.cpp:159-177 | replacing a duplicate keeps IDs unique |
| History.HitsMembers | src/MatchHistory.cpp:243-256 | the hits are exactly the entries where either lower-cased player name contains the lower-cased query |
| History.HitsIgnoreCase | src/MatchHistory.cpp:243-256 | the search does not depend on the case of the query |
| History.Recent | src/MatchHistory.cpp:193-212 | the shown entries are the top min(count, size) |
| History.SavedHeaderOk | src/MatchHistory.cpp:351-352 | the header that save writes passes load's header check, which asks for MatchID, Player1, Player2, Winner and Score (lines 421-428) |
| History.ParseRowLoadable | src/MatchHistory.cpp:439-501 | every row that loads has a positive ID, non-empty fields after one leading space is dropped, and a winner equal to one of the players |
| History.ParseRowText | src/MatchHistory.cpp:357-368 | a saved row of a comma-free, valid entry parses back to that entry |
| History.SaveLoadRoundTrip | src/MatchHistory.cpp:443-501 | loading a saved history gives the same entries in reverse stack order |
| History.MoveAll | src/MatchHistory.cpp:144-146 | popping one stack onto another transfers its elements reversed |
| History.ScanUntilId | src/MatchHistory.cpp:134-141 | scanning for a duplicate finds it iff the ID is present, and the popped prefix is recorded |
| History.FilterOut | src/MatchHistory.cpp:160-165 | the popped entries without the ID are kept, in order |
| History.PopUpTo | src/MatchHistory.cpp:207-212 | pops min(count, size) entries, which are the top ones |
| History.ScanHits | src/MatchHistory.cpp:239-259 | the scan collects exactly the specified hits |
| History.ScanAllId | src/MatchHistory.cpp:308-318 | pops every entry onto the temporary stack and reports whether one has the ID |
| History.WriteRows | src/MatchHistory.cpp:357-368 | writes one row per entry, top of stack first |
| History.MatchHistory.constructor | src/MatchHistory.cpp:124-126 | a new history is empty |
| History.MatchHistory.FindDuplicate | src/MatchHistory.cpp:131-146 | reports whether the ID is present and restores the stack |
| History.MatchHistory.RemoveId | src/MatchHistory.cpp:159-170 | removes every entry with the ID; the others keep their order |
| History.MatchHistory.AddMatch | src/MatchHistory.cpp:129-177 | new ID: pushed on top; duplicate and replace: every entry with that ID removed and the new one on top; duplicate and decline: unchanged |
| History.MatchHistory.ViewRecentMatches | src/MatchHistory.cpp:181-220 | "No matches in history." when empty, "Error: Count must be positive." for count at most 0, otherwise the recent entries; the stack is unchanged |
| History.MatchHistory.SearchMatchesByPlayer | src/MatchHistory.cpp:223-287 | errors on an empty history or empty name; otherwise the case-insensitive hits, most recent first; the stack is unchanged |
| History.MatchHistory.SearchMatchByID | src/MatchHistory.cpp:290-330 | found iff the ID is valid (positive, lines 31-33) and present; the stack is unchanged |
| History.MatchHistory.SaveToFile | src/MatchHistory.cpp:333-385 | an empty name or an unwritable file writes nothing; otherwise the header then the rows top first; the stack is unchanged |
| History.MatchHistory.LoadFromFile | src/MatchHistory.cpp:388-525 | an empty name or a missing file changes nothing; otherwise the history is cleared, a bad header leaves it empty, and otherwise the loadable rows are pushed in file order; true iff something loaded |
| History.MatchHistory.GetTotalMatches | src/MatchHistory.cpp:528-530 | the number of stored entries |
| LegacyHistory.ExactHitsMembers | MatchHistory.cpp:63-65 | the hits are exactly the entries where either player name contains the query as written (case-sensitive) |
| LegacyHistory.EmptyNameFindsAll | MatchHistory.cpp:63-65 | an empty query matches every entry |
| LegacyHistory.ExactHitsInHits | MatchHistory.cpp:63-65 | every case-sensitive hit is also a case-insensitive hit |
| LegacyHistory.ScanExactHits | MatchHistory.cpp:59-69 | the scan collects exactly those hits |
| LegacyHistory.IdOnlyRow | MatchHistory.cpp:165-182 | every comma-free row that `stoi` accepts still loads, with that value as ID and every other field the row text without its leading space, if it has one, because a failed `getline` keeps the previous token |
| LegacyHistory.EmptyRowThrows | MatchHistory.cpp:165-182 | every row that is empty or starts with a comma has an empty ID field, and `stoi` throws on it |
| LegacyHistory.LegacyLoadStaysFailed | MatchHistory.cpp:160-187 | once `stoi` throws the load is aborted and stays aborted |
| LegacyHistory.LegacyLoadRows | MatchHistory.cpp:160-187 | the loop pushes each parsed row in file order, one leading space off each field, until a throw |
| LegacyHistory.LegacyParseRowText | MatchHistory.cpp:115-126 | a saved row of comma-free fields parses back to its entry |
| LegacyHistory.LegacySaveLoadRoundTrip | MatchHistory.cpp:160-187 | loading a saved history gives the same entries in reverse stack order |
| LegacyHistory.LegacyMatchHistory.constructor | MatchHistory.cpp:8-10 | a new history is empty |
| LegacyHistory.LegacyMatchHistory.AddMatch | MatchHistory.cpp:13-16 | always pushes on top, with no duplicate check |
| LegacyHistory.LegacyMatchHistory.ViewRecentMatches | MatchHistory.cpp:19-45 | shows the top min(count, size) entries and restores the stack |
| LegacyHistory.LegacyMatchHistory.SearchMatchesByPlayer | MatchHistory.cpp:48-97 | returns the case-sensitive hits and restores the stack |
| LegacyHistory.LegacyMatchHistory.SaveToFile | MatchHistory.cpp:100-136 | writes the header and one row per entry, top first, and restores the stack |
| LegacyHistory.LegacyMatchHistory.LoadFromFile | MatchHistory.cpp:141-192 | a file that does not open changes nothing; otherwise the stack is emptied and the rows pushed in file order, or the load ends where `stoi` throws |
| LegacyHistory.LegacyMatchHistory.GetTotalMatches | MatchHistory.cpp:195-197 | the number of stored entries |
| Tickets.VipSlotUnique | src/TicketManager.cpp:20-24 | the VIP insertion point is the start of the trailing run of Regular tickets |
| Tickets.ShiftedIsInsert | src/TicketManager.cpp:22-26 | shifting the tail right by one and writing the slot inserts the ticket there |
| Tickets.EnqueueEffect | src/TicketManager.cpp:10-28 | full or ignored status: unchanged; otherwise non-VIP tickets go to the back and VIP tickets just before the trailing Regular run, the others keeping their order |
| Tickets.EnqueueKeepsVipFirst | src/TicketManager.cpp:20-27 | with only VIP and Regular tickets, all VIP tickets stay ahead of all Regular ones |
| Tickets.ThirdKindBreaksVipFirst | src/TicketManager.cpp:21 | with a third ticket kind that ordering can be lost |
| Tickets.EnqueueKeepsNoIgnored | src/TicketManager.cpp:16-18 | no Cancelled, Rejected or Waiting ticket ever enters the queue |
| Tickets.EnqueueSold | src/TicketManager.cpp:116-124 | enqueue raises the sold count by one exactly when it accepts a Pending or Confirmed ticket, otherwise not at all |
| Tickets.ProcessEffect | src/TicketManager.cpp:36-45 | only the first Pending ticket becomes Confirmed; with none nothing changes; the sold count is unchanged |
| Tickets.NoPendingCount | src/TicketManager.cpp:36-45 | FirstPending finds a Pending ticket iff the Pending count is positive |
| Tickets.SplitNeedsThreeCommas | src/TicketManager.cpp:98-109 | a line without three commas is skipped |
| Tickets.SplitIsTicketLine | src/TicketManager.cpp:98-109 | a split line is the three fields and the rest joined by commas |
| Tickets.SplitTicketLine | src/TicketManager.cpp:79-83 | a saved line of comma-free fields splits back to its ticket |
| Tickets.LoadKeepsNoIgnored | src/TicketManager.cpp:94-112 | loading never admits an ignored status |
| Tickets.SaveLoadRoundTrip | src/TicketManager.cpp:72-112 | loading the saved lines of a queue of accepted tickets, with no comma in the first three fields and no line break in any field, into an empty queue rebuilds the same queue |
| Tickets.TicketLineOneLine | src/TicketManager.cpp:81-82 | a ticket without line breaks in its fields is written as a single line |
| Tickets.FormatIdRoundTrip | src/TicketManager.cpp:157 | below 1000 the ID is "T" and three digits and reads back to the number; from 1000 on the formatting throws |
| Tickets.FormatIdInjective | src/TicketManager.cpp:157 | distinct numbers below 1000 give distinct IDs |
| Tickets.ResumeNumbering | src/TicketManager.cpp:127-156 | after a restart numbering continues after the ID on the file's last line |
| Tickets.PurchaseWithinCapacity | src/TicketManager.cpp:161-166 | purchases never take the sold count past 50 |
| Tickets.TicketQueue.constructor | src/TicketManager.cpp:6-8 | a new queue is empty, with 100 slots |
| Tickets.TicketQueue.Enqueue | src/TicketManager.cpp:10-28 | the array queue after the shift loop is exactly the specified enqueue |
| Tickets.TicketQueue.ProcessTicketEntry | src/TicketManager.cpp:30-46 | empty queue, nothing pending, or the index confirmed, and the queue becomes the specified processed queue |
| Tickets.TicketQueue.CountTicketsSold | src/TicketManager.cpp:116-124 | the number of Pending or Confirmed tickets |
| Tickets.TicketQueue.SaveToFile | src/TicketManager.cpp:72-85 | writes the header then one line per ticket in queue order |
| Tickets.TicketQueue.LoadFromFile | src/TicketManager.cpp:87-114 | a missing file changes nothing; otherwise each split line is enqueued in file order |
| Tickets.TicketIds.constructor | src/TicketManager.cpp:4 | the counter starts at 0 |
| Tickets.TicketIds.GenerateTicketID | src/TicketManager.cpp:126-158 | on the first call the counter is seeded from the file's last ID; then it rises by one and is formatted |
| Tickets.PurchaseTicket | src/TicketManager.cpp:160-199 | at 50 sold: refused and nothing changes; otherwise a fresh ID and a Pending ticket of the chosen kind enqueued |
| Withdrawal.QueueNode.constructor | src/PlayerWithdrawalManager.cpp:7 | a node holds the player and no successor |
| Withdrawal.PlayerQueue.constructor | src/PlayerWithdrawalManager.cpp:637 | a new queue is empty |
| Withdrawal.PlayerQueue.IsEmpty | src/PlayerWithdrawalManager.cpp:23-25 | true iff the queue holds nothing |
| Withdrawal.PlayerQueue.Enqueue | src/PlayerWithdrawalManager.cpp:6-11 | adds the player at the rear |
| Withdrawal.PlayerQueue.Dequeue | src/PlayerWithdrawalManager.cpp:13-21 | null when empty; otherwise returns and removes the oldest entry |
| Withdrawal.QueueIsFifo | src/PlayerWithdrawalManager.cpp:6-25 | enqueuing any players on a new queue and dequeuing until it is empty gives them back in the order they came in, and one more dequeue gives nothing |
| Withdrawal.FirstAnswerUnique | src/PlayerWithdrawalManager.cpp:842-846 | a lookup answers with the first matching list entry |
| Withdrawal.NameByIdFacts | src/PlayerWithdrawalManager.cpp:363-370 | the name of the first player with the ID, or the ID itself when there is none |
| Withdrawal.StatusTagFacts | src/PlayerWithdrawalManager.cpp:372-386 | the tag is non-empty iff some player with the ID is withdrawn, and then starts with " (Withdrawn"; the first such player decides it: " (Withdrawn - " + reason + ")" when its reason is non-empty, otherwise " (Withdrawn)" |
| Withdrawal.StatusOfFacts | src/PlayerWithdrawalManager.cpp:404-422 | "Active" when no player has the name; "Withdrawn" only when a player of that name is withdrawn |
| Withdrawal.CancelEffect | src/PlayerWithdrawalManager.cpp:70-85 | exactly the Upcoming or Updated matches naming the player become Cancelled; the rest are unchanged |
| Withdrawal.CancelIdempotent | src/PlayerWithdrawalManager.cpp:70-85 | cancelling twice equals cancelling once |
| Withdrawal.CancelCountIsNewlyCancelled | src/PlayerWithdrawalManager.cpp:70-85 | the count returned is the number of matches newly cancelled |
| Withdrawal.RestoreEffect | src/PlayerWithdrawalManager.cpp:388-398 | exactly the Cancelled matches with the value in a slot become Updated |
| Withdrawal.RestoreAfterCancel | src/PlayerWithdrawalManager.cpp:388-398 | restoring after a cancel by the same key turns the matches the cancel acted on into Updated, and leaves matches without the key as they were |
| Withdrawal.ValidateEffect | src/PlayerWithdrawalManager.cpp:400-434 | an Upcoming or Updated match is cancelled iff either player's first roster status is Withdrawn (unknown names are Active) |
| Withdrawal.ValidateIdempotent | src/PlayerWithdrawalManager.cpp:400-434 | validating twice equals validating once |
| Withdrawal.ReplaceEffect | src/PlayerWithdrawalManager.cpp:714-733 | in Cancelled matches the withdrawn name is replaced in player1, otherwise in player2, unless the other slot holds the replacement; those matches become Updated and their two slots differ; the rest are unchanged |
| Withdrawal.ReplaceChangesIff | src/PlayerWithdrawalManager.cpp:714-733 | the list changes iff some match is Cancelled, names the withdrawn player, and does not already hold the replacement in the other slot |
| Withdrawal.ReplaceIdempotent | src/PlayerWithdrawalManager.cpp:714-733 | replacing twice equals replacing once |
| Withdrawal.WithdrawnPlayers | src/PlayerWithdrawalManager.cpp:640-648 | the selection holds exactly the withdrawn players of the list |
| Withdrawal.ReplaceRoundEffect | src/PlayerWithdrawalManager.cpp:678-742 | a pass of replacements changes only Cancelled matches, each changed match becomes Updated, and the list keeps its length |
| Withdrawal.AfterChangeEffect | src/PlayerWithdrawalManager.cpp:862-921 | an accepted change sets the chosen player to Active or Withdrawn and leaves every other player alone; afterwards no playable match involves a withdrawn player |
| Withdrawal.WithdrawalMissesIdSlots | src/PlayerWithdrawalManager.cpp:874-882 | a withdrawal cancels nothing where the loaded slots hold player IDs, since matching is by name |
| Withdrawal.ReactivationMissesNameSlots | src/PlayerWithdrawalManager.cpp:867-871 | a reactivation restores nothing where the slots hold names, since matching is by ID |
| Withdrawal.EraseAbsent | src/PlayerWithdrawalManager.cpp:201-202 | erasing a character that does not occur changes nothing |
| Withdrawal.ExtractBetween | src/PlayerWithdrawalManager.cpp:176-183 | with '(' before ')' the reason is the text strictly between the first of each |
| Withdrawal.ExtractWithoutParentheses | src/PlayerWithdrawalManager.cpp:176-183 | without a '(' or without a ')' the reason is "" |
| Withdrawal.ExtractReversed | src/PlayerWithdrawalManager.cpp:176-183 | when the first ')' comes before the first '(' the reason is "" |
| Withdrawal.NormalisedStatus | src/PlayerWithdrawalManager.cpp:200-208 | a loaded status has no '\r' or '\n', one mentioning "Withdrawn" is exactly "Withdrawn", and only a withdrawn player keeps a reason |
| Withdrawal.NormalisedStatusText | src/PlayerWithdrawalManager.cpp:200-208 | a saved withdrawn status with its reason loads back as "Withdrawn" with that reason |
| Withdrawal.ReadPlayerFields | src/PlayerWithdrawalManager.cpp:193-199 | reading a saved player line yields its ID, its name and the normalised status text |
| Withdrawal.PlayerLineRoundTrip | src/PlayerWithdrawalManager.cpp:57-63 | a saved player line of plain fields reads back to the player |
| Withdrawal.ScheduleLineRoundTrip | src/PlayerWithdrawalManager.cpp:93-101 | a saved schedule line reads back to the match |
| Withdrawal.PrependedOrder | src/PlayerWithdrawalManager.cpp:170-171 | loading by prepending holds the rows in reverse file order |
| Withdrawal.SaveLoadReverses | src/PlayerWithdrawalManager.cpp:210-211 | saving then loading the players reverses the list |
| Withdrawal.LoadedNormal | src/PlayerWithdrawalManager.cpp:200-208 | every player in a loaded list has a normalised status |
| Withdrawal.DistBounds | src/PlayerWithdrawalManager.cpp:216-235 | the distance is at least the length difference and at most the longer length |
| Withdrawal.DistSymmetric | src/PlayerWithdrawalManager.cpp:216-235 | the distance is symmetric |
| Withdrawal.DistSelf | src/PlayerWithdrawalManager.cpp:216-235 | a string is at distance 0 from itself |
| Withdrawal.LevenshteinFacts | src/PlayerWithdrawalManager.cpp:216-235 | d(a,"") = \|a\|, d("",b) = \|b\|, d(a,a) = 0 and the maximum bound, case ignored |
| Withdrawal.LevenshteinDistance | src/PlayerWithdrawalManager.cpp:216-235 | the table filled by the nested loops gives the recursive distance of the lower-cased strings |
| Withdrawal.FillRow | src/PlayerWithdrawalManager.cpp:224-233 | one inner pass fills a row of the table with the recursive distances |
| Withdrawal.ToLowerString | src/PlayerWithdrawalManager.cpp:43-49 | the loop lower-cases every character |
| Withdrawal.TournamentSystem.constructor | src/PlayerWithdrawalManager.cpp:134-137 | both lists start empty |
| Withdrawal.TournamentSystem.FindPlayer | src/PlayerWithdrawalManager.cpp:841-846 | the index of the first player with the ID, if any |
| Withdrawal.TournamentSystem.GetPlayerNameByID | src/PlayerWithdrawalManager.cpp:363-370 | computes the specified name lookup |
| Withdrawal.TournamentSystem.GetPlayerStatusTag | src/PlayerWithdrawalManager.cpp:372-386 | computes the specified tag |
| Withdrawal.TournamentSystem.UpdateMatchSchedule | src/PlayerWithdrawalManager.cpp:70-85 | the matches become the specified cancel; returns the count |
| Withdrawal.TournamentSystem.RestoreMatchStatus | src/PlayerWithdrawalManager.cpp:388-398 | the matches become the specified restore |
| Withdrawal.TournamentSystem.StatusByName | src/PlayerWithdrawalManager.cpp:404-422 | computes the specified status lookup |
| Withdrawal.TournamentSystem.ValidateMatchStatuses | src/PlayerWithdrawalManager.cpp:400-434 | the matches become the specified validation |
| Withdrawal.TournamentSystem.ReplaceInMatches | src/PlayerWithdrawalManager.cpp:714-733 | the matches become the specified replacement |
| Withdrawal.TournamentSystem.ReplacePlayer | src/PlayerWithdrawalManager.cpp:694-733 | an unknown or "0" replacement changes nothing; otherwise the matches become the replacement |
| Withdrawal.TournamentSystem.QueueWithdrawn | src/PlayerWithdrawalManager.cpp:637-648 | the queue receives the withdrawn players in list order |
| Withdrawal.TournamentSystem.DrainQueue | src/PlayerWithdrawalManager.cpp:678-742 | dequeuing all and replacing each gives the specified round |
| Withdrawal.TournamentSystem.AddReplacementPlayer | src/PlayerWithdrawalManager.cpp:632-754 | reports whether any player is withdrawn, and the matches become one specified pass of replacements over the withdrawn players in list order |
| Withdrawal.TournamentSystem.HasPlayableMatch | src/PlayerWithdrawalManager.cpp:874-882 | true iff some Upcoming or Updated match names the player |
| Withdrawal.TournamentSystem.ModifyPlayerStatus | src/PlayerWithdrawalManager.cpp:757-928 | an unknown player, a status already set, an invalid choice or a declined withdrawal leaves everything as it was; an accepted change gives the specified new roster and matches |
| Withdrawal.TournamentSystem.LoadPlayers | src/PlayerWithdrawalManager.cpp:185-214 | a file that does not open changes nothing; otherwise the file's players, normalised, are prepended in reverse file order |
| Withdrawal.TournamentSystem.LoadSchedule | src/PlayerWithdrawalManager.cpp:152-174 | a file that does not open changes nothing; otherwise the file's matches are prepended in reverse file order |

## Left out

- **Console interaction.** Menus and prompt loops are not modelled: `runMainMenu`, `displayTournamentMenu`, `handlePlayerMenu`, `clearScreen`, `runMatchHistorySystem`, `getIntInput`/`getStringInput`, `runTicketManager`, `runPlayerWithdrawalSystem`, and the input loops of `handleStartMatchMenu` and `purchaseTicket`. The answers they read are parameters.
- **Display-only code.** `searchPlayer`, `searchPlayerByID`, `searchPlayerByName`, `showPlayers`, `showMatchesByStatus` and `displayPlayersByStatus` are not modelled, and neither are the `display()` printers or the bubble sorts inside the display code (src/PlayerWithdrawalManager.cpp:575-584 and others). They only print. Only the Levenshtein distance behind the fuzzy search is modelled.
- **File streams.** File paths, stream state and the open failure are parameters. `updatePlayerFile` and `updateScheduleFile` are modelled only as their line formats.
- Tickets.TicketQueue.ProcessTicketEntry and Tickets.PurchaseTicket: the `saveToFile()` calls after a confirmation (src/TicketManager.cpp:40) and after a purchase (src/TicketManager.cpp:198) are not modelled. Tickets.TicketQueue.SaveToFile gives the lines they would write.
- **Floating point.** `Player::getWinningPercentage` and src/playerPerformance.cpp are not modelled.
- **Randomness.** `std::rand` is a parameter. `srand` and its time seed are left out.
- **Memory.** `new`/`delete`, destructors, `TournamentBracket`, and `convertToHistoricalMatch` are not modelled.
- **Glue.** src/main.cpp and the other main files are not modelled.
- **Integer width.** The 32-bit `int` overflow of `matchIDCounter`, `lastTicketNumber` and the win/loss counters is not modelled; those are unbounded integers. `std::stoi` does model the int range.
- **Ticket status.** A '\r' left in a loaded ticket status is treated as an ordinary character.
- Schedule.StartMatch: the loop that re-prompts until the tally is accepted (src/scheduleMatches.cpp:206-226) is not modelled; it guarantees an accepted tally, which StartMatch requires.
- Winners.EmptyQueueRanking: the ranking guarantee is stated only for a queue that is empty on entry. The source reuses one queue and leaves unselected entries in it.
- Progression.AutoSimulateFullTournament: it has no stage-existence guard, as in the source. PlayStage's contract shows the effect: the next stage's matches are appended even when that stage already has some.
- Progression.AutoSimulateFullTournament: the champion guarantee is stated only for a queue that is empty on entry. Entries left over from earlier calls compete too, and could put one player into two Semifinal slots.
- Byes are not carried forward into the next stage, as in the source.
- `totalPointsScored` is never set, so the points tie-break only ever compares equal values. It is kept in the heap order anyway.
- History.MatchHistory.AddMatch: the replace-or-decline prompt is a parameter.
- History.MatchHistory.LoadFromFile: the source's comment promises to restore the old contents on failure, but the code does not. The model follows the code, so the history stays cleared.
- LegacyHistory.LegacyMatchHistory.LoadFromFile: the `std::stoi` exception becomes the StoiThrew outcome, and it is not propagated.
- Tickets.TicketIds.GenerateTicketID: the `std::length_error` thrown from 1000 on becomes `None`.
- Tickets.EnqueueKeepsVipFirst: it holds only when every ticket is VIP or Regular; ThirdKindBreaksVipFirst shows why.
- Withdrawal.LevenshteinDistance: it requires both strings to have at most 100 characters, because the source's table is fixed at 101 by 101.
- Withdrawal.TournamentSystem.AddReplacementPlayer: it models one pass of the interactive outer loop. The replacement IDs are a parameter.
- Withdrawal.TournamentSystem.ModifyPlayerStatus: the prompts are parameters, and the "0" return to the menu is not modelled.
- Withdrawal.AfterChangeEffect: withdrawals match slots by name and reactivations match them by ID. This is modelled as written.
