# 2048 auto-players, modelled in Dafny

The repository holds two browser bots that play a 2048-style game. Each bot reads
the page and presses one of the keys `w`, `a`, `s`, `d`, until the 2048 tile appears or
the game is over. This project models the decision-making and bookkeeping of both bots.
It leaves out the browser itself.

- **Simple player** (`Game2048AutoPlayer`). It reads the score, the largest tile and
  the game-over flag. It picks a move from a 7-step left/down cycle with two periodic
  overrides, and counts its moves and its largest tile.
- **Advanced player** (`AdvancedGame2048AutoPlayer`). It rebuilds the 4x4 grid from the
  tile elements and finds the first largest tile in row-major order. It pushes that tile
  toward the bottom-left cell (row 3, column 0). Once the tile is there, it follows an
  8-step snake pattern with 'up' and 'right' overrides, and a round-robin when its stuck
  counter is above 10. The stuck counter is raised by every 101 snapshots in a row whose
  largest tile did not change. The player gives up once it has made more than 500 moves.

Files:

- `common.dfy` (module `Common`): moves and their keys, loop outcomes (`TargetReached`,
  `GameOver`, `Timeout`), the target tile 2048, an `Option` type.
- `page_text.dfy` (module `PageText`): reading values out of page text. It covers the
  score (the first run of digits), Python's `int()` on a cell text (ASCII sign and
  digits), and the overlay's game-over test (a substring search for `display: flex`).
- `autoplay.dfy` (module `AutoPlay`): the simple player's snapshot reader and move
  policy, and the player as a class whose `Step` is one iteration of the game loop.
- `autoplay_advanced.dfy` (module `AdvancedAutoPlay`): the advanced player's grid reader,
  largest-tile search, move policy and game loop.

A page read is a value: `Page` holds the score element's text (if any), the cells or tile
records, and the overlay. A key press is the `Move` that `Step` returns. `PlayGame` runs
the loop over a finite sequence of snapshots. It returns the outcome, or `None` when the
snapshots run out first, together with the moves it dispatched.

Ghost fields record each game: the snapshots seen, the moves dispatched and the outcome.
The class invariants tie these to the real fields. For the advanced player the invariant
bounds the stuck counter: within one game it can rise at most 4 above its value at the
start, because each rise takes 101 snapshots and a game reads at most 502. So a player
that starts a game with a stuck counter of at most 6 never uses the round-robin in that
game. A fresh player starts at 0.

The simple policy's comment at `src/autoplay.py:85` says 'right' is used once every 30
moves, and lines 86-87 test for counts 29 mod 30. The code checks the 'up' override (counts 9 mod 10) first, and every
count that is 29 mod 30 is also 9 mod 10. So the 'right' branch is never taken. The model
follows the code rather than the comment, and `AutoPlay.SelectNextMove` states that the result is never `Right`.
The advanced policy has a similar overlap. Its 'right' override for 49 mod 50 is
shadowed by 'up' at 99 mod 100, so 'right' fires exactly at counts 49 mod 100.

## Model

| member | source | states |
|---|---|---|
| PageText.FirstDigitRun | src/autoplay.py:38 | the bounds of the first maximal digit run: a digit-free prefix, all digits, not followed by a digit; None exactly when the text holds no digit |
| PageText.ScoreOf | src/autoplay.py:35-41 | a missing score element, or a text with no digit, gives score 0 |
| PageText.ScoreIsFirstRun | src/autoplay.py:35-41 | any maximal digit run after a digit-free prefix is the score, read as a decimal number |
| PageText.ScoreOfRendered | src/autoplay.py:35-41 | a number rendered in decimal between digit-free surroundings reads back as that number |
| PageText.ScoreExample | src/autoplay.py:35-41 | the text "Score: 1234" gives score 1234 |
| PageText.ScoreWithoutDigits | src/autoplay.py:35-41 | the text "Score:" and a missing score element both give score 0 |
| PageText.DecimalValue | src/autoplay.py:39 | the decimal rendering of n reads back as n |
| PageText.ParseInt | src/autoplay.py:50 | int() accepts a text exactly when it is one or more digits, or a '-' or '+' followed by one or more digits; it rejects every other text (the ValueError path); the value is the digits' decimal value, negated after '-' |
| PageText.ParseIntDecimal | src/autoplay.py:50 | int() reads back n, "-n" and "+n" for every rendered natural number n |
| PageText.ContainsAt | src/autoplay.py:60 | the substring test holds exactly when the pattern is a prefix of some suffix |
| PageText.IsGameOver | src/autoplay.py:56-60 | game over exactly when the overlay exists and its style, taken as "" when absent, contains "display: flex" |
| AutoPlay.ParsedValuesMembers | src/autoplay.py:44-53 | the collected cell values are exactly those of cells whose text int() accepts; the others are skipped |
| AutoPlay.Peak | src/autoplay.py:45-51 | the running maximum is at least 0, bounds every value, and is 0 or one of the values |
| AutoPlay.PeakAppend | src/autoplay.py:51 | one more value updates the running maximum by max |
| AutoPlay.GetGameState | src/autoplay.py:25-62 | the snapshot holds the parsed score, the running maximum over the parsable cells, and the game-over flag |
| AutoPlay.SelectNextMove | src/autoplay.py:64-90 | 'up' exactly at counts 9 mod 10; never 'right'; otherwise 'left' at counts 0, 2, 4 mod 7 and 'down' at counts 1, 3, 5, 6 mod 7 |
| AutoPlay.HighestTileIsMax | src/autoplay.py:110-118 | the recorded maximum is at least 0, bounds every tile seen, and is 0 or a tile seen |
| AutoPlay.Verdict | src/autoplay.py:121-134 | the target wins over game over; the simple loop never times out |
| AutoPlay.ProgressStop | src/autoplay.py:121-134 | stopping on a snapshot ends the game with that snapshot's verdict |
| AutoPlay.ProgressPress | src/autoplay.py:136-139 | pressing the policy's key on a non-stopping snapshot extends the game by exactly that move |
| AutoPlay.GameOutcome | src/autoplay.py:112-146 | move k is the policy's choice for count k, made on a non-stopping snapshot; a stopped game stops on the snapshot after its last move |
| AutoPlay.Game2048AutoPlayer.constructor | src/autoplay.py:14-23 | a new player has made no moves and has maximum 0 |
| AutoPlay.Game2048AutoPlayer.Start | src/autoplay.py:108-110 | a game starts with zero moves, maximum 0 and no history |
| AutoPlay.Game2048AutoPlayer.Step | src/autoplay.py:112-146 | the maximum becomes max(old, tile) and never decreases; then stop on the target, then on game over; otherwise press the policy's key for the current count and add 1 to the move count |
| AutoPlay.Game2048AutoPlayer.PlayGame | src/autoplay.py:108-146 | the loop reads a prefix of the snapshots; its moves are the policy's; it stops exactly at the first stopping snapshot, with its verdict; the maximum is the largest tile seen |
| AdvancedAutoPlay.Place | src/autoplay_advanced.py:39-55 | one tile record writes its cell when it has both attributes and a parsable text; no other cell changes |
| AdvancedAutoPlay.GridOfCell | src/autoplay_advanced.py:34-57 | a cell holds the value of the last record that writes it, and 0 when none does |
| AdvancedAutoPlay.GetGridState | src/autoplay_advanced.py:25-57 | the in-place loop builds the grid that the records describe |
| AdvancedAutoPlay.SeqMax | src/autoplay_advanced.py:79 | max of a non-empty row bounds every element and is one of them |
| AdvancedAutoPlay.GridMax | src/autoplay_advanced.py:79 | the largest tile bounds every cell and is held by some cell |
| AdvancedAutoPlay.GetGameState | src/autoplay_advanced.py:59-88 | the snapshot holds the parsed score, the built grid, the grid's largest value and the game-over flag |
| AdvancedAutoPlay.CellAt | src/autoplay_advanced.py:102-104 | cell (i, j) is entry 4i+j of the row-major scan |
| AdvancedAutoPlay.ScanMaxFindsFirstMax | src/autoplay_advanced.py:99-106 | after k cells the scan holds the first strict maximum among them, or (0, 0) while none is positive |
| AdvancedAutoPlay.MaxTilePosition | src/autoplay_advanced.py:100-106 | the position lies in 0..3 x 0..3 |
| AdvancedAutoPlay.MaxTilePositionIsFirstMax | src/autoplay_advanced.py:90-108 | the position is the first cell in row-major order holding the largest positive value, and (0, 0) when no cell is positive |
| AdvancedAutoPlay.FindMaxTilePosition | src/autoplay_advanced.py:90-108 | the nested loops return that position |
| AdvancedAutoPlay.MaxPositionExample | src/autoplay_advanced.py:90-108 | a grid whose 1024 sits at the bottom-left gives (3, 0) |
| AdvancedAutoPlay.OverrideResidues | src/autoplay_advanced.py:143-153 | 'right' (49 mod 50) escapes 'up' (19 mod 20) exactly at counts 49 mod 100; 'up' counts fall on round-robin slot 3 and 'right' counts on slot 1 |
| AdvancedAutoPlay.SelectNextMove | src/autoplay_advanced.py:110-156 | largest tile above row 3: 'down'; in row 3 but right of column 0: 'left', for any count and stuck counter; 'up' and 'right' only once it is in the corner. SelectNextMoveInCorner and SelectNextMoveWhenStuck give the choice in the corner for every count |
| AdvancedAutoPlay.SelectNextMoveInCorner | src/autoplay_advanced.py:136-156 | in the corner with stuck counter at most 10: 'up' exactly at 19 mod 20, 'right' exactly at 49 mod 100, otherwise the snake pattern at count mod 8 |
| AdvancedAutoPlay.SelectNextMoveWhenStuck | src/autoplay_advanced.py:142-153 | in the corner with stuck counter above 10: 'up' exactly at counts 0 mod 4 or 19 mod 20, 'right' exactly at 1 mod 4, 'left' exactly at 2 mod 4, 'down' at 3 mod 4 except 19 mod 20 |
| AdvancedAutoPlay.StuckCounterBelowThreshold | src/autoplay_advanced.py:151 | a stuck counter of at most 10 does not change the choice |
| AdvancedAutoPlay.Verdict | src/autoplay_advanced.py:204-222 | the stop order is target, then game over, then the move ceiling |
| AdvancedAutoPlay.HighestTileIsMax | src/autoplay_advanced.py:176-187 | the recorded maximum is at least 0, bounds every tile seen, and is 0 or a tile seen |
| AdvancedAutoPlay.PolicyMoves | src/autoplay_advanced.py:225 | the policy makes one move per snapshot |
| AdvancedAutoPlay.PolicyMovesAt | src/autoplay_advanced.py:225 | move k is the policy's choice on snapshot k's grid at count k |
| AdvancedAutoPlay.PolicyMovesPrefix | src/autoplay_advanced.py:225 | later snapshots do not change earlier moves |
| AdvancedAutoPlay.StuckBound | src/autoplay_advanced.py:192-199 | the arithmetic step behind the stuck bound: 101 snapshots per rise and at most 502 snapshots allow at most 4 rises; the class invariant and PlayGame's `stuckCounter <= old(stuckCounter) + 4` carry the modelling fact |
| AdvancedAutoPlay.ProgressStop | src/autoplay_advanced.py:204-222 | stopping on a snapshot ends the game with that snapshot's verdict |
| AdvancedAutoPlay.ProgressPress | src/autoplay_advanced.py:224-227 | pressing the policy's key on a non-stopping snapshot extends the game by exactly that move |
| AdvancedAutoPlay.GameOutcome | src/autoplay_advanced.py:180-227 | at most 501 moves; a timeout happens exactly at 501 moves; more than 501 snapshots always end the game; move k was made on a non-stopping snapshot |
| AdvancedAutoPlay.AdvancedGame2048AutoPlayer.constructor | src/autoplay_advanced.py:14-23 | a new player has made no moves, has maximum 0 and stuck counter 0 |
| AdvancedAutoPlay.AdvancedGame2048AutoPlayer.Observe | src/autoplay_advanced.py:185-202 | a new maximum clears both stuck trackers; an unchanged maximum counts a stuck move, and the 101st raises the stuck counter and starts the count again; a changed maximum clears the count |
| AdvancedAutoPlay.AdvancedGame2048AutoPlayer.Start | src/autoplay_advanced.py:173-178 | a game starts with zero moves, maximum 0 and clear trackers, and keeps the stuck counter |
| AdvancedAutoPlay.AdvancedGame2048AutoPlayer.Step | src/autoplay_advanced.py:180-227 | the maximum and the stuck trackers change as in Observe; then stop on the target, then game over, then more than 500 moves; otherwise press the policy's key for the current grid, count and new stuck counter, and add 1 to the move count |
| AdvancedAutoPlay.AdvancedGame2048AutoPlayer.PlayGame | src/autoplay_advanced.py:173-227 | at most 501 moves; the stuck counter rises by at most 4; from a counter of at most 6 the moves are the corner policy's; it stops exactly at the first stopping snapshot, with its verdict |

## Left out

- The browser: launching, navigation, element queries, key presses and closing. Page reads are `Page` values and presses are returned `Move`s.
- `asyncio.sleep` pacing and the async structure, because they carry no logic. Execution is sequential.
- All `print` logging, including the progress lines every 100 and every 50 moves, because they change no state.
- `main()` and the hard-coded URL, because they are configuration only.
- `play_game`'s `while True` runs until the game stops. The model runs it over a finite sequence of snapshots and returns `None` if that sequence ends first.
- PageText.ParseInt: models `int()` on ASCII only: an optional sign, then one or more decimal digits. Surrounding whitespace, underscores and non-ASCII digits, which Python also accepts, are not modelled. The score search likewise counts only ASCII digits as `\d`.
- AdvancedAutoPlay.GetGridState: requires every positioned tile record to have integer row and column attributes, and, when its text parses, to name a cell in 0..3. The source guards neither. There, int() of a non-numeric attribute raises an uncaught ValueError, an out-of-range index raises IndexError, and a negative index wraps around. None of these are modelled.
- The grid is a local sequence value. The source's list of lists is created fresh inside the function and is never shared, so no aliasing is lost.
- `previous_max` and `stuck_moves` are locals of `play_game` in the source. Here they are fields of the player, reset by `Start` just as the source resets them before its loop.
- AdvancedAutoPlay.AdvancedGame2048AutoPlayer.PlayGame: states the moves as the policy's choices only when the game starts with a stuck counter of at most 6. Otherwise the round-robin may apply, and the exact move is stated per iteration by `Step`.
- The score is read but no decision depends on it, so it is only carried in the snapshot.
