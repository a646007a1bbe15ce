# Minesweeper board engine in Dafny

This project models the board engine of a small SFML Minesweeper game, without the rendering. It has four parts:

- **The game window (`GameWindow`).** It holds:
  - the grid of tiles, with 8-neighbour adjacency clipped at the board edges;
  - mine placement by drawing cells until enough distinct ones hold a mine;
  - adjacent-mine counting;
  - the breadth-first flood reveal;
  - the loss and win logic, where a win flags every remaining mine and submits the score;
  - flag toggling with the remaining-mines counter;
  - the pause snapshot and restore, gated on `gameOver`;
  - the reset;
  - the dispatch of mouse presses;
  - the digit arithmetic of the mine counter and the timer.
- **One tile (`GameTile`).** Its four game fields and three pause-snapshot fields, and the operations that set or toggle them.
- **The leaderboard.** It covers:
  - `MM:SS` formatting;
  - parsing of `MM:SS,name` lines, including where C++ `stoi` and `substr` throw;
  - the update-best, sort by time and keep-five merge of `addPlayerScore`;
  - the saved line format and the rank line.
- **The welcome screen (`WelcomeWindow`).** Its name editing.

Files and modules:

| file | module | what it holds |
|---|---|---|
| `tile.dfy` | `Tile` | `TileState` is the value of one tile. The class `GameTile` has the same fields, and each method is proved to act on them like the matching `TileState` function. |
| `board.dfy` | `Board` | The grid as a value (`seq<seq<TileState>>`). Also the neighbour list in the order the source builds it, the adjacent-mine count, an independent set-based definition of that count, whole-board counting, and the flood region. The flood region is defined as the least set that contains the clicked tile and is closed under "a zero-count cell takes in its eligible neighbours". |
| `digits.dfy` | `Digits` | The `% 10` / `/= 10` loop that fills a row of digit sprites from the right, proved to show the number modulo 10^width. |
| `game.dfy` | `Game` | The class `GameWindow`. It keeps an `array2<GameTile>` together with a ghost `Cells` grid that always matches it. Each source method is a Dafny method, and each is proved against the `Board` definitions. |
| `welcome.dfy` | `Welcome` | The class `WelcomeWindow`. Its name is always letters only, at most ten, with an upper-case first letter and lower-case rest. |
| `leaderboard.dfy` | `Leaderboard` | The entry list and its text format. The class `LeaderboardWindow` has the `entries` list and the file's lines. |

Environment inputs are passed in as parameters:

- **Randomness.** The random generator in `placeMines` is a sequence of drawn cells `draws`. If the draws run out before enough mines are placed, placement stops, and `missing` says how many mines were still to place.
- **The clock.** `sf::Clock` is a reading `clockStart` in microseconds, and the current time is a parameter `now`.
- **Files.** A leaderboard file is `Option<seq<string>>`: `None` when it cannot be opened, otherwise its lines.
- **Hit-testing.** A mouse press arrives with its target already resolved (`Target`).
- **Leaderboard submission.** The leaderboard side effects of a win are recorded as the pair (name, seconds) appended to `submittedScores`, plus the flag `isLeaderboardOpen`.

Two behaviours of the code a reader may not expect:

- **Mines after a loss.** `revealTile` reveals the mines through `GameTile::reveal`, which refuses flagged tiles. So a flagged mine stays hidden after a loss (`Game.GameWindow.RevealTile`). `revealAllMinesAfterLoss`, which would reveal them, is only reached from `loseGame`, and nothing calls `loseGame`. Both are modelled as written.
- **Times of 100 minutes or more.** The leaderboard's own file format does not survive them. `formatTime(6000)` is `"100:00"`, and reading it back takes the seconds from `":0"`, where `stoi` throws (`Leaderboard.ParseFailsAt6000`). Below 6000 seconds the round trip holds (`Leaderboard.ParseSaveLine`, `Leaderboard.SaveThenParse`).

## Model

| member | source | states |
|---|---|---|
| Tile.TileState.Reveal | Gametile.h:41-54 | The tile becomes revealed unless it is flagged. Mine, flag and count are unchanged. |
| Tile.TileState.Flag | Gametile.h:56-72 | A revealed tile keeps its flag. Any other tile has its flag toggled. Mine, revealed and count are unchanged. |
| Tile.TileState.RevealMineAfterLoss | Gametile.h:81-91 | The tile is revealed whatever its flag. The flag, the mine and the count are kept. |
| Tile.TileState.SavePauseState | Gametile.h:114-118 | Saving touches none of the four game fields. |
| Tile.TileState.RestorePauseState | Gametile.h:133-137 | Revealed, flag and count come back from the snapshot. The mine is kept. |
| Tile.TileState.RestoredLook | Gametile.h:139-155 | Flagged gives covered with a flag. Otherwise revealed gives uncovered, with a number exactly when the count is positive. Otherwise the tile is covered. |
| Tile.RevealIdempotent | Gametile.h:41-54 | Revealing twice is the same as revealing once. |
| Tile.FlagTwiceIsIdentity | Gametile.h:56-72 | Flagging twice gives back the tile exactly. |
| Tile.FlagAndRevealExclude | Gametile.h:41-72 | A flag blocks reveal. A revealed tile cannot be flagged. Flagging a hidden tile makes reveal a no-op. |
| Tile.PauseRoundTrip | Gametile.h:114-137 | Save followed by restore gives back the game fields held at save time. |
| Tile.GameTile.constructor | Gametile.h:11-29 | A new tile has no mine, is hidden and unflagged, and has count 0 and an empty snapshot. |
| Tile.GameTile.SetMine | Gametile.h:37 | Only `isMine` changes, to the given status. |
| Tile.GameTile.SetAdjacentMines | Gametile.h:104 | Only `adjacentMines` changes, to the given count. |
| Tile.GameTile.Reveal | Gametile.h:41-54 | The fields change exactly as `TileState.Reveal` says. |
| Tile.GameTile.Flag | Gametile.h:56-72 | The fields change exactly as `TileState.Flag` says. |
| Tile.GameTile.RevealMineAfterLoss | Gametile.h:81-91 | The fields change exactly as `TileState.RevealMineAfterLoss` says. |
| Tile.GameTile.SavePauseState | Gametile.h:114-118 | The snapshot fields take the current revealed, flag and count. |
| Tile.GameTile.RestorePauseState | Gametile.h:133-137 | Revealed, flag and count take the snapshot values. |
| Tile.GameTile.RestoreTexture | Gametile.h:139-155 | The look chosen is `RestoredLook` of the current state. |
| Digits.SplitDigits | main.cpp:396-402 | The right-to-left digit loop fills `width` decimal digits whose value is n modulo 10^width. |
| Digits.DigitStep | main.cpp:398-399 | One turn of the loop (digit = count % 10, count /= 10) extends the shown suffix by one place value. |
| Digits.ValueBound | main.cpp:397-402 | A row of w digits spells a number below 10^w. |
| Digits.DigitsUnique | main.cpp:397-402 | Two equally wide digit rows with the same value are equal, so the shown digits are the decimal representation. |
| Digits.PrependDigit | main.cpp:397-402 | A leading digit adds its place value. |
| Digits.ValueTail | main.cpp:405-406 | Dropping the leading digit (replaced by the minus sign) leaves the value modulo the smaller place value. |
| Digits.ModOfMod | main.cpp:396-402 | Reducing modulo 10p and then modulo p is reducing modulo p. |
| Welcome.ToUpper | main.cpp:32 | A letter becomes upper case. Exactly the lower-case letters change, by 32. |
| Welcome.ToLower | main.cpp:34 | A letter becomes lower case. Exactly the upper-case letters change, by 32. |
| Welcome.Capitalized | main.cpp:32-34 | Same length. The first character goes through toupper and every later one through tolower. |
| Welcome.LowerAll | main.cpp:33-34 | Every character goes through tolower. |
| Welcome.CapitalizedIdempotent | main.cpp:32-34 | Applying the case rule twice is the same as applying it once. |
| Welcome.CapitalizedWellFormed | main.cpp:30-34 | The case rule turns any string of at most ten letters into a well-formed name, and leaves a well-formed name unchanged. |
| Welcome.WelcomeWindow.constructor | main.cpp:19-20 | The name starts empty, no launch is requested, and the window is open. |
| Welcome.WelcomeWindow.HandleInput | main.cpp:25-50 | Close: no launch, window closed. Enter: launch and close only with a non-empty name. Text: the name is edited. Other events change nothing. The name stays well formed. |
| Welcome.WelcomeWindow.EditName | main.cpp:30-37 | The name becomes `NameAfter(name, ch)` and stays well formed. |
| Welcome.WelcomeWindow.ApplyCase | main.cpp:32-34 | The toupper and tolower loop leaves the name `Capitalized`. |
| Welcome.NameAfter | main.cpp:30-37 | One typed character keeps a name well formed: letters only, at most ten, capital first, lower-case rest. |
| Welcome.TypeLetter | main.cpp:30-34 | A letter typed into a name shorter than ten is appended: upper case if it is the first letter, lower case otherwise. The earlier letters are untouched. |
| Welcome.IgnoredInput | main.cpp:30-37 | These leave the name unchanged: a letter when the name is full, a non-letter other than backspace, and backspace on an empty name. |
| Welcome.TypeThenErase | main.cpp:30-37 | Typing a letter and then a backspace gives back the name. |
| Board.AdjacentSymmetric | main.cpp:430-435 | Adjacency is symmetric. |
| Board.FreshGrid | main.cpp:417-425 | A rows x cols grid of tiles, each as the tile constructor leaves it. |
| Board.NeighborsBeforeMembers | main.cpp:430-436 | The first k offsets give exactly the on-board cells at those offsets, the centre excluded. |
| Board.NeighborsBeforeOrdered | main.cpp:430-436 | The first k offsets give cells in strictly increasing offset rank. |
| Board.NeighborListMembers | main.cpp:428-440 | The adjacency list holds exactly the on-board cells adjacent to p, never p itself. |
| Board.NeighborListSymmetric | main.cpp:428-440 | q is on p's list iff p is on q's list. |
| Board.NeighborListOrdered | main.cpp:430-436 | The list is in row-major offset order, so no cell appears twice. |
| Board.NeighborCount | main.cpp:430-436 | The list length is the clipped 3 x 3 block minus the centre, at most 8. |
| Board.CornerEdgeInterior | main.cpp:430-436 | On a board at least 2 x 2, a corner has 3 neighbours, another border cell 5, and an inner cell 8. |
| Board.NeighborsBeforeStep | main.cpp:431-436 | One (dr, dc) turn appends the candidate exactly when it is not the centre and lies on the board. |
| Board.AdjacentTiles | main.cpp:430-436 | The dr/dc loops build the adjacency list: exactly the adjacent on-board cells, without repeats. |
| Board.CountMinesInIsCardinality | main.cpp:468-473 | Counting mines along a list without repeats gives the number of distinct mine cells on it. |
| Board.MinesAroundCorrect | main.cpp:463-477 | The stored count equals the size of the set of mines in the clipped 3 x 3 block around p, p excluded. It is at most the number of neighbours, which is at most 8. |
| Board.MineNeighborsOnList | main.cpp:469-471 | The mine cells on the neighbour list are the mine neighbours, as a set. |
| Board.CountMinesInAtMost | main.cpp:468-473 | A count never exceeds the list length. |
| Board.CountMinesInSameMines | main.cpp:463-477 | Counts depend only on where the mines are. |
| Board.CountsInRange | main.cpp:463-477 | With correct counts, every mine-free tile holds a count from 0 to 8. |
| Board.CountGridUpdate | main.cpp:454-456 | Replacing one tile changes a whole-board count by exactly that tile's contribution. |
| Board.CountGridSameMines | main.cpp:463-477 | Grids with the same mine positions hold the same number of mines. |
| Board.CountGridAtMost | main.cpp:451-458 | No more than rows * cols tiles satisfy any property, so no more than rows * cols mines fit (`LaidOverfull`). |
| Board.CountGridNone | main.cpp:412-425 | A grid where no tile satisfies a property counts zero. |
| Board.CountGridAll | main.cpp:451-458 | A grid where every tile satisfies a property counts rows * cols. |
| Board.FloodRegionUnique | main.cpp:731-750 | The flood region is unique, whatever order the queue takes. |
| Board.FloodRegionEligible | main.cpp:740 | The flood from an eligible cell never takes in a mine, a flagged tile or a revealed tile. |
| Board.OrderedInClosed | main.cpp:735-749 | Every cell of a reveal order lies in every closed set containing the start. |
| Board.RegionFromOrder | main.cpp:731-750 | A closed set covered by a reveal order from the start is the flood region. |
| Game.Counted | main.cpp:466-474 | A mine-free tile takes the number of mines around it. A mine is left alone. Nothing else changes. |
| Game.PlaySeconds | main.cpp:360-361 | The whole seconds of play, truncated: s seconds cover the banked time plus the running clock. |
| Game.RevealOne | main.cpp:728-729 | Revealing one hidden, unflagged tile uncovers exactly that tile and changes nothing else. |
| Game.DrawAllCount | main.cpp:451-458 | Each placed mine lands on a mine-free cell, so the mine count grows by exactly the number placed. A mine setting of zero or less places nothing. |
| Game.DrawAllOnlyMines | main.cpp:451-458 | The draws only set `isMine`, only on drawn cells, and never remove a mine. |
| Game.DrawAllExhausted | main.cpp:451-458 | If mines are still missing when the draws run out, every drawn cell holds a mine. |
| Game.DrawsCoverBoard | main.cpp:451-458 | If the draws visit every cell and all hold mines, the board is all mines. |
| Game.LaidExactly | main.cpp:444-461 | With 1 <= mines <= rows * cols and draws that visit every cell, exactly `mines` tiles hold a mine. |
| Game.LaidOverfull | main.cpp:451-458 | A setting above rows * cols is never met: at least `mines - rows * cols` mines stay missing whatever is drawn, which is where the source's loop would never end. |
| Game.UncoverKeepsMinesCovered | main.cpp:728-750 | Uncovering a safe tile or its flood region uncovers no mine. |
| Game.UpdateKeepsCovered | main.cpp:172-189 | Changing a tile's flag or count leaves every mine covered. |
| Game.WinFlagsEveryMine | main.cpp:270-277 | If no mine was uncovered, flagging the unflagged mines leaves every mine flagged. |
| Game.FloodStart | main.cpp:731-733 | Revealing and queueing the clicked zero-count tile establishes the queue-loop invariant. |
| Game.RevealOrderExtend | main.cpp:739-744 | Appending an eligible neighbour of a zero-count cell keeps a reveal order. |
| Game.FloodStep | main.cpp:740-747 | Revealing one eligible neighbour keeps the invariant. It is queued exactly when its count is 0. |
| Game.ExpandDone | main.cpp:739-749 | After the walk over a tile's list, every neighbour eligible before the flood is revealed. |
| Game.VisitCount | main.cpp:740-744 | Every tile queued was hidden and is now revealed. This is the termination measure. |
| Game.VisitStep | main.cpp:739-749 | Looking at one neighbour keeps the invariant and covers one more list entry. |
| Game.WalkStep | main.cpp:739-749 | The walk over j + 1 neighbours is the walk over j followed by one look. |
| Game.WalkCount | main.cpp:739-749 | The walk hides nothing, and each tile it queues was hidden before. |
| Game.WalkLogAppends | main.cpp:739-749 | The walk only appends to the reveal order and the queue. |
| Game.WalkKeepsFlood | main.cpp:739-749 | Walking a queued tile's neighbours keeps the invariant and covers all of them. |
| Game.ExpandKeepsFlood | main.cpp:735-750 | One turn of the queue loop advances the invariant by one queue entry. |
| Game.FloodFinish | main.cpp:735-750 | Once the queue is empty, the newly revealed cells form the flood region. |
| Game.CountedGridCorrect | main.cpp:463-477 | A grid counted tile by tile holds correct counts everywhere. |
| Game.CounterExact | main.cpp:395-408 | From -99 to 999 the counter reads exactly `remainingMines`. |
| Game.TimerExact | main.cpp:357-376 | Below 100 minutes the timer reads exactly the seconds played. |
| Game.FlaggingTwice | main.cpp:172-189 | flagTile twice gives back the tile and the counter. |
| Game.FlaggingKeepsBalance | main.cpp:172-189 | The counter plus the tile's flag is unchanged. Only the flag changes. |
| Game.FlaggingBalance | main.cpp:172-189 | Over the whole board, the counter plus the number of flagged tiles is unchanged. |
| Game.CounterDigits | main.cpp:395-408 | The three sprites show \|rm\| modulo 1000. For negative rm the first sprite is the minus sign and the other two show \|rm\| modulo 100. |
| Game.TimerDigits | main.cpp:362-375 | The four sprites show the minutes modulo 100 and then the seconds, two digits each. |
| Game.BuildTiles | main.cpp:417-425 | A rows x cols array of distinct new tiles, each in its initial state. |
| Game.GameWindow.ApplyToSelected | main.cpp:271-277 | A whole-board loop applies the operation to exactly the selected tiles. |
| Game.GameWindow.CountNeighborMines | main.cpp:468-473 | The loop counts the mine neighbours of p: the size of the mine-neighbour set, at most 8. |
| Game.GameWindow.StoreCount | main.cpp:466-474 | One tile is replaced by its counted form. |
| Game.GameWindow.CalculateAdjacentMines | main.cpp:463-477 | Every mine-free tile stores its correct count. Mines, flags and reveals are unchanged. |
| Game.GameWindow.TryPlaceMine | main.cpp:454-457 | A mine is placed iff the cell had none. Otherwise nothing changes. |
| Game.GameWindow.DrawMines | main.cpp:451-458 | The drawing loop yields exactly the grid and missing count of `DrawAll`. |
| Game.GameWindow.FloodFill | main.cpp:731-750 | Only reveals happen, and the newly revealed cells are exactly the flood region of the start. Every queued tile is queued once, and the queued tiles are exactly the new zero-count ones. |
| Game.GameWindow.VisitNeighbor | main.cpp:740-747 | An eligible neighbour is revealed, and queued iff its count is 0. |
| Game.GameWindow.ExpandTile | main.cpp:736-749 | One turn keeps the invariant. The hidden count plus the queue length does not grow, which is why the loop terminates. |
| Game.GameWindow.WalkNeighbors | main.cpp:739-749 | The neighbour loop equals the `WalkGrid`/`WalkQueue` specification. |
| Game.GameWindow.PlaceDrawn | main.cpp:445-458 | The mine count grows by `mines - missing`. Only `isMine` changes, only on drawn cells. |
| Game.GameWindow.PlaceMines | main.cpp:444-461 | Placement as in `PlaceDrawn`; only the mine and count fields change; then every count is correct. |
| Game.GameWindow.UpdateCounter | main.cpp:395-408 | The counter sprites show `remainingMines`. |
| Game.GameWindow.UpdateTimer | main.cpp:357-376 | The timer is frozen while over or paused. Otherwise it shows the whole seconds played. |
| Game.GameWindow.FlagTile | main.cpp:172-189 | The whole new state (`FlaggedFrom`): a revealed tile is ignored; otherwise the flag toggles and the counter moves the other way, so the counter plus the flags is unchanged. Nothing else changes. |
| Game.GameWindow.FlagHidden | main.cpp:175-188 | On a hidden tile the flag toggles and the counter moves by +1 when unflagging, -1 when flagging. |
| Game.GameWindow.FlagAt | main.cpp:175-178 | The tile's flag toggles, and the flag before is returned. |
| Game.GameWindow.MoveCounter | main.cpp:180-188 | The counter moves by delta and its sprites show it. |
| Game.GameWindow.TogglePause | main.cpp:655-684 | The whole new state (`ToggledFrom`). Once over, nothing changes. Pausing banks the running time and snapshots every tile. Resuming restores every tile. Both restart the clock; nothing else changes. |
| Game.GameWindow.BankAndSnapshot | main.cpp:660-671 | The running time is banked, the clock restarts, and every tile is saved. |
| Game.GameWindow.RestartAndRestore | main.cpp:672-683 | The clock restarts and every tile is restored. |
| Game.GameWindow.PauseThenResume | main.cpp:655-684 | After a pause and a resume every tile's game fields are as before, and the paused interval never counts in the play time. |
| Game.GameWindow.ScanAllSafe | main.cpp:262-268 | The result is true iff no tile is both hidden and mine-free. |
| Game.GameWindow.CheckWin | main.cpp:261-307 | Won iff every mine-free tile is revealed. On a win: the unflagged mines are flagged, so in a running game (where no mine is uncovered) every mine ends flagged; counter 0, score (name, seconds) submitted, leaderboard open, winning face, game over. Otherwise nothing changes. |
| Game.GameWindow.DeclareWin | main.cpp:270-306 | The winning effects of checkWin. |
| Game.GameWindow.FlagAllMines | main.cpp:270-281 | Exactly the unflagged mines get flagged, and the counter becomes 0. |
| Game.GameWindow.UncoverSafe | main.cpp:728-751 | A tile with a neighbouring mine: that tile alone is revealed. A zero-count tile: its flood region is revealed. No mine becomes uncovered. |
| Game.GameWindow.RevealTile | main.cpp:710-758 | The whole new state (`RevealedFrom`). A flagged or revealed tile changes nothing at all. On a mine: the unflagged mines are revealed, game over with the losing face, and nothing else changes (no win check). Otherwise the tile alone (count > 0) or its flood region (count 0) is uncovered; unless that wins, nothing else changes; a win flags every mine, zeroes the counter, submits (name, seconds), opens the leaderboard and ends the game with the winning face. No mine is uncovered while the game runs. |
| Game.GameWindow.RevealMinesAndLose | main.cpp:712-723 | Every mine that `reveal` accepts (the unflagged ones) is revealed, the face shows the loss and the game is over. |
| Game.GameWindow.RevealSafe | main.cpp:728-757 | The safe uncovering, then the win check: without a win nothing but the uncovering changes; with one, its effects, every mine flagged in a running game. |
| Game.GameWindow.EndIfWon | main.cpp:753-757 | Without a win nothing changes, counter, leaderboard and face included. With one: mines flagged, counter 0, score submitted, leaderboard open, winning face, game over. |
| Game.GameWindow.InitializeTiles | main.cpp:412-441 | A new array of fresh tiles matching `FreshGrid`. |
| Game.GameWindow.NewMinefield | main.cpp:249-250 | A fresh board, all of whose tile objects are new, on which placeMines has laid the mines. |
| Game.GameWindow.LayMines | main.cpp:444-461 | On fresh tiles: nothing revealed or flagged, mines only on drawn cells, counts correct, and `mines - missing` mines; no mine is uncovered. |
| Game.GameWindow.constructor | main.cpp:767-779 | A new board of new tile objects, laid by placeMines. The counter shows `mines`, the clock starts at `now`, and the game is running, unpaused and not over. |
| Game.GameWindow.HandleInput | main.cpp:479-530 | Close shuts the window and the leaderboard and changes nothing else. A press leaves the state `PressedFrom` gives: the callee's whole outcome for each target. A press on the face button leaves new tile objects; every other press, and a close, keeps the same ones. An event that is neither a close nor a press changes nothing. |
| Game.GameWindow.HandleClick | main.cpp:483-528 | The whole new state (`PressedFrom`). Leaderboard toggles; face resets (`ResetFrom`, new tiles); pause toggles as `ToggledFrom` says, a no-op once over; debug toggles unless paused; a tile press as `ClickedFrom`; elsewhere nothing changes. Only the face button replaces the tile objects, with new ones. |
| Game.GameWindow.PressInPlace | main.cpp:486-527 | A press on any target but the face button leaves the state `PressedFrom` gives, keeping the same tile objects. |
| Game.GameWindow.ToggleLeaderboard | main.cpp:486-493 | The leaderboard button opens the leaderboard when it is closed and closes it when it is open. |
| Game.GameWindow.ToggleDebug | main.cpp:508-511 | The debug button flips debug mode, except while paused, when nothing changes. |
| Game.GameWindow.ClickTile | main.cpp:512-527 | The whole new state (`ClickedFrom`). Ignored when over, paused, off-board or with another button. Otherwise the left button leaves the state `RevealedFrom` gives and the right button the one `FlaggedFrom` gives. |
| Game.GameWindow.ResetGame | main.cpp:231-251 | The whole new state (`ResetFrom`): running, unpaused, not over, debug off, happy face, counter at `mines`, nothing banked, the clock restarted, the timer at 00:00, a new board of new tile objects laid; the leaderboard, the window and the submitted scores are kept. |
| Game.GameWindow.ResetControls | main.cpp:232-248 | The controls and displays are reset as in resetGame. |
| Game.GameWindow.RevealAllMinesAfterLoss | main.cpp:626-635 | Every mine is revealed, flagged or not. Nothing else changes. |
| Game.GameWindow.LoseGame | main.cpp:640-647 | Game over with the losing face. Exactly the mines become revealed. |
| Leaderboard.TruncDiv | leaderboardWindow.h:191 | C++ division truncates toward zero. |
| Leaderboard.TruncMod | leaderboardWindow.h:192 | The C++ remainder has the sign of the dividend, and a == b*q + r. |
| Leaderboard.IntToString | leaderboardWindow.h:194 | `operator<<` of an int is never empty. |
| Leaderboard.IntToStringDigits | leaderboardWindow.h:194 | A non-negative number is written as digits that spell it back: one digit below 10, two below 100. |
| Leaderboard.Stoi | leaderboardWindow.h:42-43 | A value `stoi` returns fits in a 32-bit int. |
| Leaderboard.StoiDigits | leaderboardWindow.h:42-43 | A string of digits that fits in an int reads back as its value. |
| Leaderboard.StoiNoDigit | leaderboardWindow.h:42-43 | Text starting with anything other than white space, a sign or a digit makes `stoi` throw. |
| Leaderboard.Substr | leaderboardWindow.h:42-43 | Throws iff pos is past the end. Otherwise returns the at most len characters from pos. |
| Leaderboard.PaddedTwoDigits | leaderboardWindow.h:194 | A value from 0 to 99 pads to exactly two digits that spell it. |
| Leaderboard.FormatTimeShape | leaderboardWindow.h:190-196 | Below 6000 seconds the result is "MM:SS": 5 characters, the minutes and then the seconds. |
| Leaderboard.FormatTimeFields | leaderboardWindow.h:190-196 | `stoi` reads the minutes and the seconds back from the two halves of the text. |
| Leaderboard.ParseTimeParts | leaderboardWindow.h:42-44 | A 5-character time is read from its first two and its last two characters. |
| Leaderboard.ParseFormatTime | leaderboardWindow.h:42-44 | Below 6000 seconds, parsing the formatted time gives back the seconds. |
| Leaderboard.SplitJoined | leaderboardWindow.h:38-39 | A comma-free time, a comma and a name split back into the time and the name. |
| Leaderboard.ParseLine | leaderboardWindow.h:36-46 | A parsed entry keeps the time text before the first comma and the name after it. |
| Leaderboard.ParseSaveLine | leaderboardWindow.h:141-142 | Parsing the saved line of an entry below 6000 seconds gives the entry back. |
| Leaderboard.ParseFailsAt6000 | leaderboardWindow.h:42-44 | At 6000 seconds the time is "100:00" and its saved line fails to parse. |
| Leaderboard.ParseLines | leaderboardWindow.h:35-47 | A successful read gives one entry per line. |
| Leaderboard.Collect | leaderboardWindow.h:46 | One push_back succeeds iff the list and the entry both exist, and appends the entry. |
| Leaderboard.ParseLinesAppend | leaderboardWindow.h:35-47 | Reading one more line appends that line's entry. |
| Leaderboard.ReadStep | leaderboardWindow.h:35-47 | A line that throws makes the whole read fail. Otherwise it adds its entry. |
| Leaderboard.NoParseAfter | leaderboardWindow.h:35-47 | Once a prefix fails to parse, the whole file fails. |
| Leaderboard.SaveLines | leaderboardWindow.h:141-143 | One `time,name` line per entry, in list order. |
| Leaderboard.SaveThenParse | leaderboardWindow.h:134-146 | Saving entries below 6000 seconds and reading the file back gives them back, in order. |
| Leaderboard.InsertByTime | leaderboardWindow.h:51-53 | Inserting keeps the list sorted by time and adds exactly the one entry. |
| Leaderboard.SortByTime | leaderboardWindow.h:174-176 | The result is sorted by time and a permutation of the input. |
| Leaderboard.FindName | leaderboardWindow.h:158-160 | The first position holding the name, or the length when there is none. |
| Leaderboard.MergedEffect | leaderboardWindow.h:162-171 | A known player's first entry keeps the faster time, so it never gets worse, and nothing else changes. A new player is appended once. |
| Leaderboard.SortedPrefixFastest | leaderboardWindow.h:174-181 | The first five of a sorted list are sorted, a sub-multiset, and no slower than anything dropped. |
| Leaderboard.SortedPrefix | leaderboardWindow.h:179-181 | A prefix of a sorted list is sorted. |
| Leaderboard.AllDroppedNoFaster | leaderboardWindow.h:179-181 | Nothing cut off a sorted list is faster than what is kept. |
| Leaderboard.DroppedNoFaster | leaderboardWindow.h:179-181 | An entry past position n is no faster than any entry before n. |
| Leaderboard.MultisetSplit | leaderboardWindow.h:179-181 | Cutting a list splits its multiset the same way. |
| Leaderboard.RankLineMarked | leaderboardWindow.h:73-80 | The line is the decimal rank i + 1, then ". ", the time, a space and the name, e.g. "1. 01:15 Alice"; " *" is appended exactly when both the name and the time match. |
| Leaderboard.LeaderboardWindow.constructor | leaderboardWindow.h:17-24 | The entry list starts empty. |
| Leaderboard.LeaderboardWindow.Load | leaderboardWindow.h:26-54 | The list is cleared. A missing file leaves it empty. Otherwise loading succeeds iff every line parses, and the list is those entries sorted by time. |
| Leaderboard.LeaderboardWindow.ReadLines | leaderboardWindow.h:35-47 | The getline loop collects exactly `ParseLines`, stopping at the first line that throws. |
| Leaderboard.LeaderboardWindow.Save | leaderboardWindow.h:134-146 | The file becomes the saved lines of the list. |
| Leaderboard.LeaderboardWindow.FindPlayer | leaderboardWindow.h:158-160 | find_if returns the first position of the name. |
| Leaderboard.LeaderboardWindow.AddPlayerScore | leaderboardWindow.h:150-185 | Load, merge the player, keep the five fastest sorted by time, and save. Fails iff loading throws. |
| Leaderboard.LeaderboardWindow.MergePlayer | leaderboardWindow.h:158-171 | The list becomes `Merged`, whose effect `MergedEffect` states. |
| Leaderboard.LeaderboardWindow.KeepFastest | leaderboardWindow.h:174-181 | Sorted by time, at most five, a sub-multiset, and nothing dropped is faster. |
| Leaderboard.LeaderboardWindow.DisplayLines | leaderboardWindow.h:73-80 | One rank line per entry, in list order. |

## Left out

- Rendering is not modelled: sprites, textures, fonts, positions, `draw`, `setPausedTexture`'s visual effect, and the debug-mode mine overlay. `Look` records only the texture choice of `restoreTexture`. The debug button flips `debugMode` and nothing else.
- Event loops (`run`) and mouse hit-testing are not modelled. A press arrives with its target resolved.
- File I/O is not modelled. The config file is replaced by the constructor's `rows`, `cols` and `mines`. The leaderboard file is a list of lines. A failed write in `saveLeaderboard` is not modelled.
- The leaderboard window's lifecycle (`new`/`delete` in `openLeaderboard`/`closeLeaderboard`, its own `run`) is reduced to the flag `isLeaderboardOpen`. A win's `addPlayerScore`, `saveLeaderboard` and `openLeaderboard` calls are recorded as one (name, seconds) pair in `submittedScores`. `LeaderboardWindow.AddPlayerScore` models what such a submission does to the list and the file.
- The leaderboard button hands `elapsedTime` to `openLeaderboard`. That variable is only ever reset and is not modelled.
- `checkWinAndUpdateLeaderboard` is not modelled: nothing calls it, and it repeats the win path.
- Game.GameWindow.PlaceMines: the random generator becomes a finite sequence of draws. The source loops until `mines` distinct cells hold a mine, which never ends when `mines > rows * cols`. The model stops when the draws run out and reports `missing`. `LaidExactly` shows that draws visiting every cell leave nothing missing when the setting is in range, and `LaidOverfull` that a setting above the board size always leaves some missing.
- Game.PlaySeconds: time is integer microseconds, and the float `asSeconds()` conversion is taken as exact truncation.
- 32-bit `int` overflow of `remainingMines`, the seconds count and the rank index is not modelled: game quantities are unbounded integers. `Leaderboard.Stoi` does model `stoi`'s out-of-range throw.
- Leaderboard.SortByTime: `std::sort` is not stable, so equal times may come out in any order. The model inserts one entry after another, and its contract promises only sortedness and permutation, as `std::sort` does.
- Leaderboard.LeaderboardWindow.Load: an exception from `stoi` or `substr` ends the program. The model returns `ok == false` instead.
- Gametile.h's adjacency back-pointers (`addAdjacentTile`, `getAdjacentTiles`) are replaced by `Board.NeighborList`, which lists the neighbours in the same order.
- The unused `tileRevealedStates`/`tileFlaggedStates` are not modelled, and neither is the `reveal` overload that Gametile.h declares but never defines.
- Welcome.WelcomeWindow: the text layout of the typed name is not modelled, and neither is `getPlayerName`, which is a plain getter.
