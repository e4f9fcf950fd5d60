# Minesweeper inference and tic-tac-toe minimax, in Dafny

This project models two small game-playing programs and proves properties about them.

**Minesweeper player.** The game (`Minesweeper`) keeps a board of mines. It answers how many mines surround a cell, and whether the flagged cells are exactly the mines.

The player (`MinesweeperAI`) keeps four things:
- the cells it has revealed;
- the cells it knows to be mines;
- the cells it knows to be safe;
- a list of *sentences*. A sentence says "exactly `count` of these `cells` are mines".

Each revealed cell and its neighbour count become a new sentence. The player then repeats three deduction rules until a pass changes nothing:
- a sentence with as many mines as cells holds only mines;
- a sentence with no mine holds only safe cells;
- a sentence whose cells contain another sentence's cells is replaced by the difference of the two.

The model proves that this loop ends. Every pass that changes something lowers the number of cells summed over all sentences. The model also proves that the loop ends at a fixed point, and that a player whose knowledge agrees with the true mine layout still agrees after each step.

**Tic-tac-toe.** The rules are modelled on a 3x3 board: whose turn it is, the moves available, the board after a move, the winner, the end of the game and its score. Exhaustive minimax is modelled on top of them. The scores are specified by two functions, `MaxScore` and `MinScore`. The loops that compute them are proved to return exactly those scores. The move `minimax` picks is proved optimal for the player to move.

Modules:
- `Options` is the option type, for results that may be missing or raise an error.
- `PyLists` models Python's list indexing, where negative indices count from the end.
- `Cells` holds board coordinates and a cell's neighbourhood.
- `Sentences` is the sentence value, its deductions and their soundness.
- `Knowledge` models the list of sentences and the measure the inference loop lowers.
- `Game` is the `Minesweeper` class.
- `AI` is the `MinesweeperAI` class.
- `TicTacToe` holds the rules.
- `Minimax` holds the search.

Some classes are mutable state in the source, and they are classes here too: `Game.Minesweeper` and `AI.MinesweeperAI`. A sentence, however, is a value (`Sentences.Sentence`). The source mutates a sentence object inside the knowledge list in place. The model writes the updated value back at the same position of the list, which is a `seq<Sentence>`. Each sentence object appears once in the source's list, so nothing aliased is lost.

A tic-tac-toe board is a value as well: `result` works on a deep copy.

Some loops of the source are extracted into methods of their own, which the surrounding method calls:
- `BoardCells`: the board-gathering loop of `create_sentence`;
- `RowMines`: the inner loop of `nearby_mines`;
- `LastMaxIndex` and `LastMinIndex`: the argmax and argmin scans of `minimax`;
- `BestMoveForX` and `BestMoveForO`: the two branches of `minimax`.

### Sentences may mention known cells

Sentences may still mention cells already known to be safe or to be mines.
- `add_knowledge` records the revealed cell with `safes.add`, not `mark_safe`, so earlier sentences keep mentioning it (minesweeper.py:196).
- `create_sentence` leaves out neighbours known to be safe, but not neighbours known to be mines (minesweeper.py:313-335).

`AI.MinesweeperAI.AddKnowledge` states what the code does keep. After the call, no sentence mentions a cell that became a mine or became safe during the call, except the revealed cell itself.

### Soundness and completeness

Each deduction step is proved sound: a player whose knowledge agrees with the true mine layout still agrees afterwards. Each step is also proved to lose no information. The mine pass and the safe pass allow exactly the same layouts before and after. The subset rule allows no new layout. Pruning drops only empty sentences; once the knowledge is known to agree with some layout, pruning allows no new layout either. So, for a true report, every layout the player allows after `add_knowledge` was allowed before and fits the report.

## Model

Source paths are relative to the repository root.

| member | source | states |
|---|---|---|
| PyLists.PyIndex | nitesh_harvard_projects/artificial_intelligence/tictactoe/tictactoe.py:53 | an index into a list of length n succeeds exactly for -n..n-1; the position used is the index itself or, for a negative one, the index plus n |
| Cells.Neighbours | nitesh_harvard_projects/artificial_intelligence/minesweeper/minesweeper.py:66-74 | a cell is a neighbour exactly when it is on the board, within one row and one column, and not the cell itself |
| Cells.NeighboursAtMostEight | nitesh_harvard_projects/artificial_intelligence/minesweeper/minesweeper.py:66-74 | a cell has at most eight neighbours |
| Cells.FilteredAtMostEight | nitesh_harvard_projects/artificial_intelligence/minesweeper/minesweeper.py:310-339 | the neighbours left after dropping known cells are still at most eight, so a created sentence has at most eight cells |
| Game.Minesweeper.constructor | nitesh_harvard_projects/artificial_intelligence/minesweeper/minesweeper.py:10-34 | the game has the board's size, its mines are exactly the cells the grid marks, and no mine has been found yet |
| Game.Minesweeper.IsMine | nitesh_harvard_projects/artificial_intelligence/minesweeper/minesweeper.py:51-53 | fails exactly when an index is outside Python's range; otherwise answers whether the cell at the Python-indexed position (a negative index counting from the end) is a mine, which on the board is the cell itself |
| Game.Minesweeper.NearbyMines | nitesh_harvard_projects/artificial_intelligence/minesweeper/minesweeper.py:55-78 | the count is the number of mines among the cell's neighbours, and lies in 0..8 |
| Game.Minesweeper.RowMines | nitesh_harvard_projects/artificial_intelligence/minesweeper/minesweeper.py:67-76 | the inner loop counts the mines around the cell that lie in one row |
| Game.Minesweeper.Won | nitesh_harvard_projects/artificial_intelligence/minesweeper/minesweeper.py:80-84 | won exactly when every mine is flagged and every flagged cell is a mine; on a consistent game, exactly when the flagged cells are the cells the board marks as mines |
| Sentences.Sentence.KnownMines | nitesh_harvard_projects/artificial_intelligence/minesweeper/minesweeper.py:104-110 | the result is all of the cells or nothing, and it is non-empty exactly when the sentence is non-empty and counts as many mines as cells |
| Sentences.Sentence.KnownSafes | nitesh_harvard_projects/artificial_intelligence/minesweeper/minesweeper.py:112-118 | the result is all of the cells or nothing, and it is non-empty exactly when the sentence is non-empty and counts no mine |
| Sentences.Sentence.MarkMine | nitesh_harvard_projects/artificial_intelligence/minesweeper/minesweeper.py:120-127 | the cell is gone afterwards and nothing else is; a sentence without the cell is unchanged; the number of cells minus the count is preserved |
| Sentences.Sentence.MarkSafe | nitesh_harvard_projects/artificial_intelligence/minesweeper/minesweeper.py:129-135 | the cell is gone afterwards and nothing else is; the count is unchanged |
| Sentences.MarkTwice | nitesh_harvard_projects/artificial_intelligence/minesweeper/minesweeper.py:120-135 | marking the same cell twice, as a mine or as safe, equals marking it once |
| Sentences.Derive | nitesh_harvard_projects/artificial_intelligence/minesweeper/minesweeper.py:246-247 | the derived sentence's cells lie in the larger sentence and outside the smaller one; when the smaller one's cells are a subset of the larger one's, the two sentences add up to the larger one, cells and count; when the smaller one is also non-empty, there are strictly fewer cells |
| Sentences.KnownMinesSound | nitesh_harvard_projects/artificial_intelligence/minesweeper/minesweeper.py:104-110 | on a layout of which the sentence is true, every reported mine is a mine |
| Sentences.KnownSafesSound | nitesh_harvard_projects/artificial_intelligence/minesweeper/minesweeper.py:112-118 | on a layout of which the sentence is true, no reported safe cell is a mine |
| Sentences.MarkMineSound | nitesh_harvard_projects/artificial_intelligence/minesweeper/minesweeper.py:120-127 | marking an actual mine keeps the sentence true, and a sentence true after the marking was true before |
| Sentences.MarkSafeSound | nitesh_harvard_projects/artificial_intelligence/minesweeper/minesweeper.py:129-135 | marking an actual non-mine keeps the sentence true, and a sentence true after the marking was true before |
| Sentences.DeriveSound | nitesh_harvard_projects/artificial_intelligence/minesweeper/minesweeper.py:246-247 | the subset rule applied to two true sentences gives a true sentence |
| Sentences.DeriveComplete | nitesh_harvard_projects/artificial_intelligence/minesweeper/minesweeper.py:246-247 | when the smaller sentence and the derived one are true and the cells are a subset, the larger sentence is true too |
| Sentences.MarkOneMore | nitesh_harvard_projects/artificial_intelligence/minesweeper/minesweeper.py:120-135 | marking one more cell after a set of them equals marking the larger set, as mines and as safe cells |
| Sentences.MarkMinesKeepsFull | nitesh_harvard_projects/artificial_intelligence/minesweeper/minesweeper.py:104-127 | marking mines leaves a sentence with as many mines as cells exactly when it had as many before |
| Sentences.MarkMinesHolds | nitesh_harvard_projects/artificial_intelligence/minesweeper/minesweeper.py:120-127 | marking a set of actual mines keeps a sentence true and makes no false sentence true |
| Sentences.MarkSafesHolds | nitesh_harvard_projects/artificial_intelligence/minesweeper/minesweeper.py:129-135 | marking a set of actual non-mines keeps a sentence true and makes no false sentence true |
| Knowledge.RemoveFirst | nitesh_harvard_projects/artificial_intelligence/minesweeper/minesweeper.py:249 | `list.remove` drops exactly one occurrence of the value (as multisets), shortening the list by one when the value is present |
| Knowledge.RemoveFirstTotal | nitesh_harvard_projects/artificial_intelligence/minesweeper/minesweeper.py:249 | removing a present sentence takes exactly its cells off the measure and mentions no new cell |
| Knowledge.Pruned | nitesh_harvard_projects/artificial_intelligence/minesweeper/minesweeper.py:236-238 | the pruned list holds exactly the non-empty sentences of the list |
| Knowledge.PrunedTotal | nitesh_harvard_projects/artificial_intelligence/minesweeper/minesweeper.py:236-238 | pruning changes neither the measure nor the cells mentioned |
| Knowledge.MarkMineAllEffect | nitesh_harvard_projects/artificial_intelligence/minesweeper/minesweeper.py:164-166 | marking a mine in every sentence keeps the number of sentences, removes exactly that cell from the cells mentioned, lowers the measure when the cell was mentioned, and keeps true sentences true when the cell is a mine |
| Knowledge.MarkSafeAllEffect | nitesh_harvard_projects/artificial_intelligence/minesweeper/minesweeper.py:173-175 | the same for marking a safe cell, with soundness when the cell is not a mine |
| Knowledge.MarkAllTwice | nitesh_harvard_projects/artificial_intelligence/minesweeper/minesweeper.py:159-175 | marking the same cell twice in every sentence, as a mine or as safe, equals marking it once |
| Knowledge.RemoveCellsEverywhere | nitesh_harvard_projects/artificial_intelligence/minesweeper/minesweeper.py:213-230 | taking a set of cells out of every sentence removes exactly those cells from the cells mentioned, never raises the measure and lowers it when one of them was mentioned |
| Knowledge.MarkMinesAll | nitesh_harvard_projects/artificial_intelligence/minesweeper/minesweeper.py:213-220 | the list keeps its length and each position holds its old sentence with the cells marked as mines |
| Knowledge.MarkSafesAll | nitesh_harvard_projects/artificial_intelligence/minesweeper/minesweeper.py:222-230 | the list keeps its length and each position holds its old sentence with the cells marked as safe |
| Knowledge.FullCellsSpec | nitesh_harvard_projects/artificial_intelligence/minesweeper/minesweeper.py:213-220 | the cells of every full sentence are collected, and every collected cell comes from a full sentence |
| Knowledge.ZeroCellsSpec | nitesh_harvard_projects/artificial_intelligence/minesweeper/minesweeper.py:222-230 | the cells of every sentence counting no mine are collected, and every collected cell comes from such a sentence |
| Knowledge.MarksFullAll | nitesh_harvard_projects/artificial_intelligence/minesweeper/minesweeper.py:213-220 | cells gathered pass by pass from the full sentences, over the whole list, are exactly the full cells |
| Knowledge.MarksZeroAll | nitesh_harvard_projects/artificial_intelligence/minesweeper/minesweeper.py:222-230 | cells gathered pass by pass from the sentences counting no mine, over the whole list, are exactly the zero cells |
| Knowledge.MineStepFinds | nitesh_harvard_projects/artificial_intelligence/minesweeper/minesweeper.py:215-220 | with the full cells before position k marked, the sentence at k yields its unmarked cells exactly when it was full, extending the marked cells to the full cells up to k |
| Knowledge.SafeStepFinds | nitesh_harvard_projects/artificial_intelligence/minesweeper/minesweeper.py:224-230 | the same for the safe pass, which skips an empty sentence |
| Knowledge.MarkAllOneMore | nitesh_harvard_projects/artificial_intelligence/minesweeper/minesweeper.py:164-175 | marking one more cell in every sentence after a set of them equals marking the larger set |
| Knowledge.MinePassMeasure | nitesh_harvard_projects/artificial_intelligence/minesweeper/minesweeper.py:213-220 | marking the full cells removes them from the cells mentioned, never raises the measure, lowers it when there was a full cell, and otherwise changes nothing and leaves no full sentence |
| Knowledge.SafePassMeasure | nitesh_harvard_projects/artificial_intelligence/minesweeper/minesweeper.py:222-230 | the same for the cells of the sentences counting no mine |
| Knowledge.FullCellsAreMines | nitesh_harvard_projects/artificial_intelligence/minesweeper/minesweeper.py:104-110 | on a layout of which every sentence is true, the cells of the full sentences are mines |
| Knowledge.ZeroCellsAreSafe | nitesh_harvard_projects/artificial_intelligence/minesweeper/minesweeper.py:112-118 | on a layout of which every sentence is true, the cells of the sentences counting no mine are not mines |
| Knowledge.MarkMinesAllHolds | nitesh_harvard_projects/artificial_intelligence/minesweeper/minesweeper.py:213-220 | marking actual mines in every sentence keeps the list true and makes no false list true |
| Knowledge.MarkSafesAllHolds | nitesh_harvard_projects/artificial_intelligence/minesweeper/minesweeper.py:222-230 | marking actual non-mines in every sentence keeps the list true and makes no false list true |
| Knowledge.MinePassExact | nitesh_harvard_projects/artificial_intelligence/minesweeper/minesweeper.py:213-220 | after the mine pass, a layout agrees with the mines, safe cells and sentences exactly when it agreed before |
| Knowledge.SafePassExact | nitesh_harvard_projects/artificial_intelligence/minesweeper/minesweeper.py:222-230 | after the safe pass, a layout agrees with the mines, safe cells and sentences exactly when it agreed before |
| Knowledge.PrunedComplete | nitesh_harvard_projects/artificial_intelligence/minesweeper/minesweeper.py:236-238 | when some layout makes every sentence true, a layout that makes the pruned list true makes the whole list true |
| AI.MinesweeperAI.constructor | nitesh_harvard_projects/artificial_intelligence/minesweeper/minesweeper.py:143-157 | a new player has the given size and no moves, mines, safe cells or sentences |
| AI.MinesweeperAI.MarkMine | nitesh_harvard_projects/artificial_intelligence/minesweeper/minesweeper.py:159-166 | the cell joins the mines, the safe cells and moves are unchanged, and every sentence is marked in place |
| AI.MinesweeperAI.MarkSafe | nitesh_harvard_projects/artificial_intelligence/minesweeper/minesweeper.py:168-175 | the cell joins the safe cells, the mines and moves are unchanged, and every sentence is marked in place |
| AI.MinesweeperAI.MarkMinesEach | nitesh_harvard_projects/artificial_intelligence/minesweeper/minesweeper.py:218-220 | the inner loop marks each found cell: the mines grow by exactly those cells and every sentence has them marked |
| AI.MinesweeperAI.MarkSafesEach | nitesh_harvard_projects/artificial_intelligence/minesweeper/minesweeper.py:228-230 | the inner loop marks each found cell: the safe cells grow by exactly those cells and every sentence has them marked |
| AI.MinesweeperAI.MineStep | nitesh_harvard_projects/artificial_intelligence/minesweeper/minesweeper.py:215-220 | the body of the mine pass at one position extends the marked cells to the full cells up to that position, in the mines and in every sentence |
| AI.MinesweeperAI.SafeStep | nitesh_harvard_projects/artificial_intelligence/minesweeper/minesweeper.py:224-230 | the body of the safe pass at one position extends the marked cells to the zero cells up to that position, in the safe cells and in every sentence |
| AI.MinesweeperAI.BoardCells | nitesh_harvard_projects/artificial_intelligence/minesweeper/minesweeper.py:291-294 | the loop gathers exactly the cells of the board |
| AI.MinesweeperAI.CreateSentence | nitesh_harvard_projects/artificial_intelligence/minesweeper/minesweeper.py:286-339 | fails (KeyError) exactly for a cell off the board; otherwise the sentence holds exactly the in-bounds neighbours not known to be safe, with the count passed through |
| AI.RingInSourceOrder | nitesh_harvard_projects/artificial_intelligence/minesweeper/minesweeper.py:301-308 | the eight named candidates, in the order they are checked, are the eight cells around the cell |
| AI.MinesweeperAI.InferMines | nitesh_harvard_projects/artificial_intelligence/minesweeper/minesweeper.py:213-220 | the mine pass adds to the mines exactly the cells of the sentences that were full when it started, and leaves every sentence at its position with those cells marked as mines; it reports a change exactly when there were such cells; it removes them from the cells mentioned, never raises the measure and lowers it on a change; without a change nothing changes and no sentence is full; a layout fits the state afterwards exactly when it fitted before |
| AI.MinesweeperAI.InferSafes | nitesh_harvard_projects/artificial_intelligence/minesweeper/minesweeper.py:222-230 | the safe pass adds to the safe cells exactly the cells of the sentences that counted no mine when it started, and leaves every sentence at its position with those cells marked as safe; it reports a change exactly when there were such cells; it removes them from the cells mentioned, never raises the measure and lowers it on a change; without a change nothing changes and no sentence yields a safe cell; a layout fits the state afterwards exactly when it fitted before |
| AI.MinesweeperAI.PruneEmpty | nitesh_harvard_projects/artificial_intelligence/minesweeper/minesweeper.py:236-238 | removing empty sentences by value while looping over a copy leaves exactly the non-empty ones, in order |
| AI.PruneStep | nitesh_harvard_projects/artificial_intelligence/minesweeper/minesweeper.py:236-238 | at each step of the copy loop, removing the empty sentence by value removes that very position |
| AI.RemovedStillHold | nitesh_harvard_projects/artificial_intelligence/minesweeper/minesweeper.py:236-238 | pruning keeps true sentences true |
| AI.MinesweeperAI.InferSubsets | nitesh_harvard_projects/artificial_intelligence/minesweeper/minesweeper.py:244-252 | with no empty sentence, it either finds no subset pair and changes nothing, or applies the rule to the first pair in permutation order: it appends the difference and removes the larger sentence by value, lowering the measure; a layout that fitted before still fits, and a layout that fits afterwards fitted before |
| AI.SubsetStep | nitesh_harvard_projects/artificial_intelligence/minesweeper/minesweeper.py:245-250 | one application of the subset rule lowers the measure, mentions no new cell and keeps true sentences true |
| AI.SubsetShrinks | nitesh_harvard_projects/artificial_intelligence/minesweeper/minesweeper.py:245-250 | one application of the subset rule lowers the measure and mentions no new cell |
| AI.SubsetSound | nitesh_harvard_projects/artificial_intelligence/minesweeper/minesweeper.py:246-249 | one application of the subset rule to true sentences leaves only true sentences |
| AI.SubsetComplete | nitesh_harvard_projects/artificial_intelligence/minesweeper/minesweeper.py:246-249 | a layout that makes the list true after one application of the subset rule made it true before |
| AI.MinesweeperAI.Infer | nitesh_harvard_projects/artificial_intelligence/minesweeper/minesweeper.py:205-252 | the loop ends (the measure decreases on every flagged pass) at a fixed point: no empty sentence, none with as many mines as cells or no mine, no subset pair; mines and safe cells only grow and are no longer mentioned; soundness is kept; when the knowledge fitted the layout, every layout that fits afterwards fitted before |
| AI.MinesweeperAI.AddKnowledge | nitesh_harvard_projects/artificial_intelligence/minesweeper/minesweeper.py:177-252 | the cell becomes a move and a safe cell; an off-board cell fails with nothing else changed; otherwise the ghost `grown` is the old sentences with the new sentence appended when it is non-empty, the final knowledge mentions only cells of `grown` and none learned during the call, and it ends saturated; a true count on a consistent player keeps it consistent, every layout the final knowledge allows makes every sentence of `grown` true, was allowed before and fits the report |
| AI.MinesweeperAI.Record | nitesh_harvard_projects/artificial_intelligence/minesweeper/minesweeper.py:192-201 | the cell becomes a move and a safe cell; an off-board cell leaves the sentences alone; otherwise the new sentence is appended exactly when it is non-empty, adding its cells to those mentioned; a true count keeps a consistent player consistent |
| AI.ReportComplete | nitesh_harvard_projects/artificial_intelligence/minesweeper/minesweeper.py:192-201 | a layout that fits the state after a true report fits the state before and agrees with the report |
| AI.MinesweeperAI.MakeSafeMove | nitesh_harvard_projects/artificial_intelligence/minesweeper/minesweeper.py:254-267 | returns a known-safe cell not yet revealed, or nothing exactly when there is none; changes no state |
| AI.MinesweeperAI.MakeRandomMove | nitesh_harvard_projects/artificial_intelligence/minesweeper/minesweeper.py:269-284 | returns an in-bounds cell neither revealed nor a known mine, or nothing exactly when there is none; changes no state |
| TicTacToe.InitialState | nitesh_harvard_projects/artificial_intelligence/tictactoe/tictactoe.py:16-22 | a 3x3 board of empty squares on which X is to move |
| TicTacToe.Player | nitesh_harvard_projects/artificial_intelligence/tictactoe/tictactoe.py:25-33 | O is to move exactly when O has fewer marks than X; on a board reached by taking turns, X is to move exactly when the counts are equal |
| TicTacToe.PlayerAlternates | nitesh_harvard_projects/artificial_intelligence/tictactoe/tictactoe.py:25-33 | on a board reached by taking turns, a move keeps the marks balanced and hands the turn to the other player |
| TicTacToe.ActionSet | nitesh_harvard_projects/artificial_intelligence/tictactoe/tictactoe.py:36-45 | a move is available exactly when it is on the board and its square is empty |
| TicTacToe.Actions | nitesh_harvard_projects/artificial_intelligence/tictactoe/tictactoe.py:36-45 | the nested loop gathers exactly the available moves |
| TicTacToe.NoActionsIffFull | nitesh_harvard_projects/artificial_intelligence/tictactoe/tictactoe.py:83 | there is no move exactly when no square is empty |
| TicTacToe.Result | nitesh_harvard_projects/artificial_intelligence/tictactoe/tictactoe.py:48-54 | succeeds exactly when both indices are within Python's range, and gives a 3x3 board |
| TicTacToe.ResultPlaces | nitesh_harvard_projects/artificial_intelligence/tictactoe/tictactoe.py:48-54 | the chosen square (a negative index counting from the end) holds the mover's mark, and every other square is unchanged |
| TicTacToe.ResultEmptyCount | nitesh_harvard_projects/artificial_intelligence/tictactoe/tictactoe.py:48-54 | a move on an empty square leaves one empty square fewer |
| TicTacToe.CheckWinnerHelper | nitesh_harvard_projects/artificial_intelligence/tictactoe/tictactoe.py:171-183 | X exactly when some X count reaches three; O exactly when no X count does and some O count does; nothing otherwise |
| TicTacToe.LineCount | nitesh_harvard_projects/artificial_intelligence/tictactoe/tictactoe.py:171-183 | a line of three counts three marks of a player exactly when the player fills it |
| TicTacToe.CheckRowWinner | nitesh_harvard_projects/artificial_intelligence/tictactoe/tictactoe.py:186-194 | a reported mark has three in some row; nothing is reported exactly when no row has three marks of either player |
| TicTacToe.CheckRowWinnerMeaning | nitesh_harvard_projects/artificial_intelligence/tictactoe/tictactoe.py:186-194 | the row check answers X when X fills a row, else O when O fills one, else nothing |
| TicTacToe.CheckColWinner | nitesh_harvard_projects/artificial_intelligence/tictactoe/tictactoe.py:197-216 | the column loop answers X when X fills a column, else O when O fills one, else nothing |
| TicTacToe.CheckDiagonalWinner | nitesh_harvard_projects/artificial_intelligence/tictactoe/tictactoe.py:219-258 | the diagonal scans answer for the main diagonal first and the other one second, X before O on each |
| TicTacToe.Winner | nitesh_harvard_projects/artificial_intelligence/tictactoe/tictactoe.py:57-76 | a reported winner holds a whole row, column or diagonal |
| TicTacToe.FindWinner | nitesh_harvard_projects/artificial_intelligence/tictactoe/tictactoe.py:57-76 | `winner` tries rows, then columns, then diagonals, and returns the first answer |
| TicTacToe.WinnerMeaning | nitesh_harvard_projects/artificial_intelligence/tictactoe/tictactoe.py:57-76 | a reported winner holds a whole line, and there is no winner exactly when neither player holds one |
| TicTacToe.Terminal | nitesh_harvard_projects/artificial_intelligence/tictactoe/tictactoe.py:79-86 | the game is over exactly when there is no move left or there is a winner |
| TicTacToe.TerminalMeaning | nitesh_harvard_projects/artificial_intelligence/tictactoe/tictactoe.py:79-86 | the game is over exactly when there is no move left or a player holds a line |
| TicTacToe.Utility | nitesh_harvard_projects/artificial_intelligence/tictactoe/tictactoe.py:89-99 | the score lies in -1..1 |
| TicTacToe.UtilityMeaning | nitesh_harvard_projects/artificial_intelligence/tictactoe/tictactoe.py:89-99 | the score is 1 only when X holds a line, -1 only when O does, and 0 exactly when neither does |
| Minimax.FoldMax | nitesh_harvard_projects/artificial_intelligence/tictactoe/tictactoe.py:152-155 | folding `max` from a seed gives at least the seed and every value, and is the seed or one of the values |
| Minimax.FoldMin | nitesh_harvard_projects/artificial_intelligence/tictactoe/tictactoe.py:164-167 | folding `min` gives at most the seed and every value, and is the seed or one of the values |
| Minimax.MaxScore | nitesh_harvard_projects/artificial_intelligence/tictactoe/tictactoe.py:146-155 | the value for X lies in -1..1, so the -2 seed never survives |
| Minimax.MinScore | nitesh_harvard_projects/artificial_intelligence/tictactoe/tictactoe.py:158-167 | the value for O lies in -1..1, so the 2 seed never survives |
| Minimax.RepliesToX | nitesh_harvard_projects/artificial_intelligence/tictactoe/tictactoe.py:153-154 | one entry per square, present exactly for the available moves, each in -1..1 |
| Minimax.RepliesToO | nitesh_harvard_projects/artificial_intelligence/tictactoe/tictactoe.py:165-166 | one entry per square, present exactly for the available moves, each in -1..1 |
| Minimax.RepliesAt | nitesh_harvard_projects/artificial_intelligence/tictactoe/tictactoe.py:153-166 | a move's entry holds the value of the board after that move |
| Minimax.MaxScoreIsBest | nitesh_harvard_projects/artificial_intelligence/tictactoe/tictactoe.py:146-155 | off a finished game, X's value is at least the value after every move and equals the value after some move |
| Minimax.MinScoreIsBest | nitesh_harvard_projects/artificial_intelligence/tictactoe/tictactoe.py:158-167 | off a finished game, O's value is at most the value after every move and equals the value after some move |
| Minimax.MaxValue | nitesh_harvard_projects/artificial_intelligence/tictactoe/tictactoe.py:146-155 | `max_value` returns exactly X's value of the board |
| Minimax.MinValue | nitesh_harvard_projects/artificial_intelligence/tictactoe/tictactoe.py:158-167 | `min_value` returns exactly O's value of the board |
| Minimax.LastMaxIndex | nitesh_harvard_projects/artificial_intelligence/tictactoe/tictactoe.py:121-126 | the scan with `>=` ends at a largest entry, and no later entry is as large |
| Minimax.LastMinIndex | nitesh_harvard_projects/artificial_intelligence/tictactoe/tictactoe.py:138-143 | the scan with `<=` ends at a smallest entry, and no later entry is as small |
| Minimax.ListBestForX | nitesh_harvard_projects/artificial_intelligence/tictactoe/tictactoe.py:112-126 | a largest entry of a list scoring every move is a move no other move beats for X |
| Minimax.ListBestForO | nitesh_harvard_projects/artificial_intelligence/tictactoe/tictactoe.py:129-143 | a smallest entry of a list scoring every move is a move no other move beats for O |
| Minimax.BestMoveForX | nitesh_harvard_projects/artificial_intelligence/tictactoe/tictactoe.py:112-126 | X's branch returns an available move whose value after the move is the largest over all moves |
| Minimax.BestMoveForO | nitesh_harvard_projects/artificial_intelligence/tictactoe/tictactoe.py:129-143 | O's branch returns an available move whose value after the move is the smallest over all moves |
| Minimax.Minimax | nitesh_harvard_projects/artificial_intelligence/tictactoe/tictactoe.py:102-143 | returns nothing exactly on a finished game, otherwise an available move that is optimal for the player to move |

## Left out

- The random placement of mines in `Minesweeper.__init__` is left out. The game is built from a given grid and the set of cells it marks.
- The default board size of `MinesweeperAI(height=8, width=8)` is left out: the constructor takes the height and width as required parameters.
- `Minesweeper.print` and `Sentence.__str__` are left out: they are console output.
- `Sentence.__eq__` is Dafny's value equality on the datatype.
- `set.pop()` in `make_safe_move` and `make_random_move` picks an arbitrary element. The model chooses one with `:|` and specifies only membership.
- Iteration over a Python set is modelled the same way: each iteration takes an arbitrary remaining element. This covers the loops over `known_mines()`, `known_safes()` and `actions(board)`.
- Mutating a `Sentence` object in place is modelled by replacing its value in the list. Sentences are not shared between lists, so the model does not express aliasing.
- `list.remove` raising ValueError is left out. The value removed is always present, so that error path cannot be reached.
- Soundness is stated with respect to a ghost mine layout that the player never reads. The actual mine positions are not available to the player.
- `-math.inf` and `math.inf` become -2 and 2, below and above every score.
- Python's `max` and `min` on mixed float and int are modelled on integers only.
- Python's `copy.deepcopy` in `result` is implicit, because boards are values.
- AI.MinesweeperAI.CreateSentence: the bound of at most eight cells is not among its own postconditions. It follows from the exact set it returns and `Cells.FilteredAtMostEight`.
- AI.MinesweeperAI.Infer: the promise that no new layout is allowed holds only when the knowledge fitted some layout to begin with. Pruning drops an empty sentence with a non-zero count, which no layout satisfies, so without that condition pruning can allow layouts the old knowledge ruled out.
- AI.MinesweeperAI.AddKnowledge: does not promise that sentences avoid the revealed cell or known mines, because the code keeps neither property.
- `Minesweeper.mines_found` is only read by `won`. The code that fills it belongs to the game runner, which is not part of this model.
- These files are not part of this model: `pagerank.py` (file input and floating-point probabilities), `traffic.py` (a wrapper over machine-learning libraries) and the `visualization` JavaScript (browser rendering).
