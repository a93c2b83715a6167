/**
 * The advanced auto-player: it rebuilds the 4x4 grid from the page's tile
 * elements, moves the largest tile toward the bottom-left cell (row 3,
 * column 0), falls back to a longer pattern with two periodic overrides once
 * it is there, counts how long the largest tile has not changed, and gives up
 * after 500 moves. Page reads are given as a `Page` value, and key presses are
 * the moves the loop returns.
 */
module AdvancedAutoPlay {
  import opened Common
  import opened PageText

  // ---------------------------------------------------------------------------
  // The grid

  predicate IsGrid(g: seq<seq<int>>) {
    |g| == 4 && forall i :: 0 <= i < 4 ==> |g[i]| == 4
  }

  /** A 4x4 grid of tile values, indexed [row][column]. */
  type Grid = g: seq<seq<int>> | IsGrid(g) witness [[0, 0, 0, 0], [0, 0, 0, 0], [0, 0, 0, 0], [0, 0, 0, 0]]

  const EmptyGrid: Grid := [[0, 0, 0, 0], [0, 0, 0, 0], [0, 0, 0, 0], [0, 0, 0, 0]]

  /** A tile element: its data-row and data-col attributes (None when missing) and its text. */
  datatype Tile = Tile(rowAttr: Option<string>, colAttr: Option<string>, text: string)

  /** Python truthiness of an attribute value: present and non-empty. */
  predicate Truthy(attr: Option<string>) {
    attr.Some? && attr.value != []
  }

  predicate HasPosition(t: Tile) {
    Truthy(t.rowAttr) && Truthy(t.colAttr)
  }

  predicate IsIndex(r: Option<int>) {
    r.Some? && 0 <= r.value < 4
  }

  /**
   * A positioned tile's attributes are integers, and name a cell of the grid
   * when its text is written there (the source guards neither).
   */
  predicate Readable(t: Tile) {
    HasPosition(t) ==>
      ParseInt(t.rowAttr.value).Some? && ParseInt(t.colAttr.value).Some? &&
      (t.text != [] && ParseInt(t.text).Some? ==>
        IsIndex(ParseInt(t.rowAttr.value)) && IsIndex(ParseInt(t.colAttr.value)))
  }

  predicate AllReadable(tiles: seq<Tile>) {
    forall k :: 0 <= k < |tiles| ==> Readable(tiles[k])
  }

  /** Whether the tile sets cell (i, j): it has a position and a text int() accepts. */
  predicate Writes(t: Tile, i: int, j: int)
    requires Readable(t)
  {
    HasPosition(t) && t.text != [] && ParseInt(t.text).Some? &&
    ParseInt(t.rowAttr.value).value == i && ParseInt(t.colAttr.value).value == j
  }

  /** The grid after one tile of the loop has been read. */
  function Place(g: Grid, t: Tile): (g': Grid)
    requires Readable(t)
    ensures forall i, j :: 0 <= i < 4 && 0 <= j < 4 ==>
      g'[i][j] == if Writes(t, i, j) then ParseInt(t.text).value else g[i][j]
  {
    if HasPosition(t) && t.text != [] && ParseInt(t.text).Some? then
      var row, col := ParseInt(t.rowAttr.value).value, ParseInt(t.colAttr.value).value;
      g[row := g[row][col := ParseInt(t.text).value]]
    else g
  }

  /** The grid read from the tiles in page order, starting from all zeros. */
  function GridOf(tiles: seq<Tile>): Grid
    requires AllReadable(tiles)
  {
    if tiles == [] then EmptyGrid
    else Place(GridOf(tiles[..|tiles| - 1]), tiles[|tiles| - 1])
  }

  /** Tile k writes cell (i, j) and no later tile does. */
  predicate IsLastWrite(tiles: seq<Tile>, k: int, i: int, j: int)
    requires AllReadable(tiles) && 0 <= k < |tiles|
  {
    Writes(tiles[k], i, j) && forall l :: k < l < |tiles| ==> !Writes(tiles[l], i, j)
  }

  /**
   * A cell holds the value of the last tile that writes it, and 0 when no tile
   * does: later tiles overwrite earlier ones and no other cell changes.
   */
  lemma {:induction false} GridOfCell(tiles: seq<Tile>, i: int, j: int)
    requires AllReadable(tiles) && 0 <= i < 4 && 0 <= j < 4
    ensures (forall k :: 0 <= k < |tiles| ==> !Writes(tiles[k], i, j)) ==> GridOf(tiles)[i][j] == 0
    ensures forall k :: 0 <= k < |tiles| && IsLastWrite(tiles, k, i, j) ==>
      GridOf(tiles)[i][j] == ParseInt(tiles[k].text).value
  {
    if tiles != [] {
      var n := |tiles| - 1;
      var init, last := tiles[..n], tiles[n];
      assert forall k :: 0 <= k < n ==> init[k] == tiles[k];
      GridOfCell(init, i, j);
      var cell := GridOf(tiles)[i][j];
      assert cell == if Writes(last, i, j) then ParseInt(last.text).value else GridOf(init)[i][j];
      if !Writes(last, i, j) {
        forall k | 0 <= k < n && IsLastWrite(tiles, k, i, j)
          ensures IsLastWrite(init, k, i, j)
        {
        }
      }
    }
  }

  /** get_grid_state: the tile loop writes into a fresh all-zero grid. */
  method GetGridState(tiles: seq<Tile>) returns (grid: Grid)
    requires AllReadable(tiles)
    ensures grid == GridOf(tiles)
  {
    grid := EmptyGrid;
    for k := 0 to |tiles|
      invariant grid == GridOf(tiles[..k])
    {
      var tile := tiles[k];
      assert tiles[..k + 1][..k] == tiles[..k];
      if Truthy(tile.rowAttr) && Truthy(tile.colAttr) {
        var row := ParseInt(tile.rowAttr.value).value;
        var col := ParseInt(tile.colAttr.value).value;
        if tile.text != [] {
          match ParseInt(tile.text) {
            case Some(value) =>
              grid := grid[row := grid[row][col := value]];
            case None =>
          }
        }
      }
    }
    assert tiles[..|tiles|] == tiles;
  }

  /** The largest element of a non-empty sequence. */
  function SeqMax(s: seq<int>): (r: int)
    requires s != []
    ensures forall k :: 0 <= k < |s| ==> s[k] <= r
    ensures exists k :: 0 <= k < |s| && s[k] == r
  {
    if |s| == 1 then s[0]
    else
      var m := SeqMax(s[..|s| - 1]);
      assert forall k :: 0 <= k < |s| - 1 ==> s[..|s| - 1][k] == s[k];
      Max(m, s[|s| - 1])
  }

  /** The largest value on the grid (the maximum of the row maxima). */
  function GridMax(g: Grid): (r: int)
    ensures forall i, j :: 0 <= i < 4 && 0 <= j < 4 ==> g[i][j] <= r
    ensures exists i, j :: 0 <= i < 4 && 0 <= j < 4 && g[i][j] == r
  {
    var rows := [SeqMax(g[0]), SeqMax(g[1]), SeqMax(g[2]), SeqMax(g[3])];
    var r := SeqMax(rows);
    assert forall i :: 0 <= i < 4 ==> rows[i] == SeqMax(g[i]);
    var i :| 0 <= i < 4 && rows[i] == r;
    var j :| 0 <= j < 4 && g[i][j] == SeqMax(g[i]);
    r
  }

  /** The page as the advanced player reads it. */
  datatype Page = Page(scoreText: Option<string>, tiles: seq<Tile>, overlay: Overlay)

  /** One observation: score, grid, largest tile and game-over flag. */
  datatype Snapshot = Snapshot(score: nat, grid: Grid, maxTile: int, gameOver: bool)

  method GetGameState(page: Page) returns (state: Snapshot)
    requires AllReadable(page.tiles)
    ensures state.score == ScoreOf(page.scoreText)
    ensures state.grid == GridOf(page.tiles)
    ensures state.maxTile == GridMax(state.grid)
    ensures state.gameOver == IsGameOver(page.overlay)
  {
    var score := ScoreOf(page.scoreText);
    var grid := GetGridState(page.tiles);
    state := Snapshot(score, grid, GridMax(grid), IsGameOver(page.overlay));
  }

  // ---------------------------------------------------------------------------
  // Where the largest tile is

  /** Cell k of the row-major order. */
  function Cell(g: Grid, k: nat): int
    requires k < 16
  {
    g[k / 4][k % 4]
  }

  lemma CellAt(g: Grid, i: nat, j: nat)
    requires i < 4 && j < 4
    ensures 4 * i + j < 16 && Cell(g, 4 * i + j) == g[i][j]
  {
  }

  /**
   * The running (max_val, index of max_pos) after the first k cells of the
   * row-major scan: a cell replaces the best so far only when strictly larger.
   */
  function ScanMax(g: Grid, k: nat): (int, nat)
    requires k <= 16
  {
    if k == 0 then (0, 0)
    else
      var (v, p) := ScanMax(g, k - 1);
      if Cell(g, k - 1) > v then (Cell(g, k - 1), k - 1) else (v, p)
  }

  lemma {:induction false} ScanMaxFindsFirstMax(g: Grid, k: nat)
    requires k <= 16
    ensures var (v, p) := ScanMax(g, k);
      v >= 0 && p < 16 &&
      (forall q :: 0 <= q < k ==> Cell(g, q) <= v) &&
      (v == 0 ==> p == 0) &&
      (v > 0 ==> p < k && Cell(g, p) == v && forall q :: 0 <= q < p ==> Cell(g, q) < v)
  {
    if k > 0 {
      ScanMaxFindsFirstMax(g, k - 1);
    }
  }

  /** The position find_max_tile_position returns, as (row, column). */
  function MaxTilePosition(g: Grid): (pos: (nat, nat))
    ensures pos.0 < 4 && pos.1 < 4
  {
    var p := ScanMax(g, 16).1;
    ScanMaxFindsFirstMax(g, 16);
    (p / 4, p % 4)
  }

  /**
   * The position is the first cell in row-major order holding the largest
   * positive value, or (0, 0) when no cell is positive.
   */
  lemma MaxTilePositionIsFirstMax(g: Grid)
    ensures var pos := MaxTilePosition(g);
      ((forall i, j :: 0 <= i < 4 && 0 <= j < 4 ==> g[i][j] <= 0) ==> pos == (0, 0)) &&
      ((exists i, j :: 0 <= i < 4 && 0 <= j < 4 && g[i][j] > 0) ==>
        g[pos.0][pos.1] > 0 &&
        (forall i, j :: 0 <= i < 4 && 0 <= j < 4 ==> g[i][j] <= g[pos.0][pos.1]) &&
        (forall i, j :: 0 <= i < 4 && 0 <= j < 4 && (i < pos.0 || (i == pos.0 && j < pos.1)) ==>
          g[i][j] < g[pos.0][pos.1]))
  {
    ScanMaxFindsFirstMax(g, 16);
    var (v, p) := ScanMax(g, 16);
    var pos := MaxTilePosition(g);
    assert Cell(g, p) == g[pos.0][pos.1];
    assert forall i: nat, j: nat :: i < 4 && j < 4 ==>
      4 * i + j < 16 && Cell(g, 4 * i + j) == g[i][j] &&
      ((i < pos.0 || (i == pos.0 && j < pos.1)) ==> 4 * i + j < p);
  }

  /** find_max_tile_position: the nested row and column loops. */
  method FindMaxTilePosition(grid: Grid) returns (row: nat, col: nat)
    ensures (row, col) == MaxTilePosition(grid)
  {
    var maxVal := 0;
    row, col := 0, 0;
    for i := 0 to 4
      invariant col < 4 && (maxVal, 4 * row + col) == ScanMax(grid, 4 * i)
    {
      for j := 0 to 4
        invariant col < 4 && (maxVal, 4 * row + col) == ScanMax(grid, 4 * i + j)
      {
        CellAt(grid, i, j);
        if grid[i][j] > maxVal {
          maxVal := grid[i][j];
          row, col := i, j;
        }
      }
    }
  }

  lemma MaxPositionExample()
    ensures MaxTilePosition([[2, 0, 0, 0], [0, 4, 0, 0], [0, 0, 8, 0], [1024, 0, 0, 0]]) == (3, 0)
  {
    var rows := [[2, 0, 0, 0], [0, 4, 0, 0], [0, 0, 8, 0], [1024, 0, 0, 0]];
    assert |rows[0]| == |rows[1]| == |rows[2]| == |rows[3]| == 4;
    var g: Grid := rows;
    // The scan's running best, cell by cell.
    assert ScanMax(g, 1) == (2, 0);
    assert ScanMax(g, 2) == (2, 0);
    assert ScanMax(g, 3) == (2, 0);
    assert ScanMax(g, 4) == (2, 0);
    assert ScanMax(g, 5) == (2, 0);
    assert ScanMax(g, 6) == (4, 5);
    assert ScanMax(g, 7) == (4, 5);
    assert ScanMax(g, 8) == (4, 5);
    assert ScanMax(g, 9) == (4, 5);
    assert ScanMax(g, 10) == (4, 5);
    assert ScanMax(g, 11) == (8, 10);
    assert ScanMax(g, 12) == (8, 10);
    assert ScanMax(g, 13) == (1024, 12);
    assert ScanMax(g, 14) == (1024, 12);
    assert ScanMax(g, 15) == (1024, 12);
    assert ScanMax(g, 16) == (1024, 12);
  }

  // ---------------------------------------------------------------------------
  // The move policy

  /** The snake pattern used once the largest tile sits in the corner. */
  const CornerPattern: seq<Move> := [Left, Down, Down, Left, Down, Left, Left, Down]

  /** The round-robin used when the stuck counter is high. */
  const StuckPattern: seq<Move> := [Up, Right, Left, Down]

  const StuckThreshold: nat := 10

  predicate AtCorner(g: Grid) {
    MaxTilePosition(g) == (3, 0)
  }

  lemma Mod50OfMod100(m: nat)
    ensures m % 50 == (m % 100) % 50
  {
    var q, r := m / 100, m % 100;
    assert m == 50 * (2 * q) + r;
  }

  lemma Mod20OfMod100(m: nat)
    ensures m % 20 == (m % 100) % 20
  {
    var q, r := m / 100, m % 100;
    assert m == 20 * (5 * q) + r;
  }

  lemma Mod4OfMod20(m: nat)
    ensures m % 4 == (m % 20) % 4
  {
    var q, r := m / 20, m % 20;
    assert m == 4 * (5 * q) + r;
  }

  /**
   * How the overrides overlap: 'right' (49 mod 50) survives the earlier 'up'
   * (19 mod 20) exactly at 49 mod 100, and the two overrides fall on
   * different round-robin slots.
   */
  lemma OverrideResidues(m: nat)
    ensures (m % 50 == 49 && m % 20 != 19) <==> m % 100 == 49
    ensures m % 20 == 19 ==> m % 4 == 3
    ensures m % 100 == 49 ==> m % 4 == 1
  {
    Mod50OfMod100(m);
    Mod20OfMod100(m);
    Mod4OfMod20(m);
  }

  /**
   * The next move: bring the largest tile down, then left; in the corner,
   * 'up' every 20th move, 'right' every 50th move unless 'up' already fired,
   * the round-robin when the stuck counter exceeds 10, and the pattern otherwise.
   */
  function SelectNextMove(grid: Grid, moveCount: nat, stuckCounter: nat): (move: Move)
    ensures MaxTilePosition(grid).0 < 3 ==> move == Down
    ensures MaxTilePosition(grid).0 == 3 && MaxTilePosition(grid).1 > 0 ==> move == Left
    ensures move == Up || move == Right ==> AtCorner(grid)
  {
    var (row, col) := MaxTilePosition(grid);
    if row < 3 then Down
    else if col > 0 then Left
    else if moveCount % 20 == 19 then Up
    else if moveCount % 50 == 49 then Right
    else if stuckCounter > StuckThreshold then StuckPattern[moveCount % |StuckPattern|]
    else CornerPattern[moveCount % |CornerPattern|]
  }

  /** In the corner with a low stuck counter: the two periodic overrides, then the snake pattern. */
  lemma SelectNextMoveInCorner(grid: Grid, moveCount: nat, stuckCounter: nat)
    requires AtCorner(grid) && stuckCounter <= StuckThreshold
    ensures var move := SelectNextMove(grid, moveCount, stuckCounter);
      (move == Up <==> moveCount % 20 == 19) &&
      (move == Right <==> moveCount % 100 == 49) &&
      (move == Left <==> moveCount % 20 != 19 && moveCount % 100 != 49 && moveCount % 8 in {0, 3, 5, 6}) &&
      (move == Down <==> moveCount % 20 != 19 && moveCount % 100 != 49 && moveCount % 8 in {1, 2, 4, 7})
  {
    OverrideResidues(moveCount);
  }

  /** In the corner with a high stuck counter: 'up' still fires every 20th move, then the round-robin. */
  lemma SelectNextMoveWhenStuck(grid: Grid, moveCount: nat, stuckCounter: nat)
    requires AtCorner(grid) && stuckCounter > StuckThreshold
    ensures var move := SelectNextMove(grid, moveCount, stuckCounter);
      (move == Up <==> moveCount % 4 == 0 || moveCount % 20 == 19) &&
      (move == Right <==> moveCount % 4 == 1) &&
      (move == Left <==> moveCount % 4 == 2) &&
      (move == Down <==> moveCount % 4 == 3 && moveCount % 20 != 19)
  {
    OverrideResidues(moveCount);
  }

  /** Below the threshold the stuck counter does not influence the choice. */
  lemma StuckCounterBelowThreshold(grid: Grid, moveCount: nat, stuckCounter: nat)
    requires stuckCounter <= StuckThreshold
    ensures SelectNextMove(grid, moveCount, stuckCounter) == SelectNextMove(grid, moveCount, 0)
  {
  }

  // ---------------------------------------------------------------------------
  // The game loop

  /** The loop stops when move_count exceeds this. */
  const MoveCeiling: nat := 500

  /** stuck_moves beyond this raise the stuck counter. */
  const StuckWindow: nat := 100

  /** Whether the loop stops on this snapshot when `moveCount` moves have been made. */
  predicate StopsAt(state: Snapshot, moveCount: nat) {
    state.maxTile >= Target || state.gameOver || moveCount > MoveCeiling
  }

  /** Why it stops: the target, then game over, then the move ceiling. */
  function Verdict(state: Snapshot, moveCount: nat): (reason: Terminal)
    requires StopsAt(state, moveCount)
    ensures reason == TargetReached <==> state.maxTile >= Target
    ensures reason == GameOver <==> state.maxTile < Target && state.gameOver
    ensures reason == Timeout <==> state.maxTile < Target && !state.gameOver
  {
    if state.maxTile >= Target then TargetReached
    else if state.gameOver then GameOver
    else Timeout
  }

  /** The maximum of 0 and the tile maximum of every snapshot. */
  function HighestTile(states: seq<Snapshot>): int {
    if states == [] then 0 else Max(HighestTile(states[..|states| - 1]), states[|states| - 1].maxTile)
  }

  /** HighestTile is the largest tile seen, and 0 before any tile is seen. */
  lemma {:induction false} HighestTileIsMax(states: seq<Snapshot>)
    ensures HighestTile(states) >= 0
    ensures forall k :: 0 <= k < |states| ==> states[k].maxTile <= HighestTile(states)
    ensures HighestTile(states) == 0 || exists k :: 0 <= k < |states| && states[k].maxTile == HighestTile(states)
  {
    if states != [] {
      var init := states[..|states| - 1];
      HighestTileIsMax(init);
      assert forall k :: 0 <= k < |init| ==> init[k] == states[k];
    }
  }

  /** The moves the policy makes on the first n snapshots, with a stuck counter of 0. */
  function PolicyMoves(states: seq<Snapshot>, n: nat): (moves: seq<Move>)
    requires n <= |states|
    ensures |moves| == n
  {
    if n == 0 then [] else PolicyMoves(states, n - 1) + [SelectNextMove(states[n - 1].grid, n - 1, 0)]
  }

  /** Move k was chosen on snapshot k's grid at move count k. */
  lemma {:induction false} PolicyMovesAt(states: seq<Snapshot>, n: nat)
    requires n <= |states|
    ensures forall k :: 0 <= k < n ==> PolicyMoves(states, n)[k] == SelectNextMove(states[k].grid, k, 0)
  {
    if n > 0 {
      PolicyMovesAt(states, n - 1);
    }
  }

  /** Later snapshots do not change the moves made on earlier ones. */
  lemma {:induction false} PolicyMovesPrefix(states: seq<Snapshot>, state: Snapshot, n: nat)
    requires n <= |states|
    ensures PolicyMoves(states + [state], n) == PolicyMoves(states, n)
  {
    if n > 0 {
      PolicyMovesPrefix(states, state, n - 1);
      assert (states + [state])[n - 1] == states[n - 1];
    }
  }

  /** The round-robin needs a stuck counter above 10, which takes 101 unchanged snapshots per step. */
  lemma StuckBound(raised: int, stuckMoves: nat, snapshots: nat)
    requires 101 * raised + stuckMoves <= snapshots <= MoveCeiling + 2
    ensures raised <= 4
  {
  }

  /**
   * The running maximum and the stuck trackers agree with the snapshots seen:
   * each rise of the stuck counter above its carried value took 101 snapshots.
   */
  ghost predicate Tracked(seen: seq<Snapshot>, carried: nat, maxTile: int, previousMax: int, stuckMoves: nat, stuckCounter: nat) {
    maxTile == HighestTile(seen) &&
    previousMax == (if seen == [] then 0 else seen[|seen| - 1].maxTile) && previousMax <= maxTile &&
    stuckMoves <= StuckWindow &&
    101 * (stuckCounter - carried) + stuckMoves <= |seen|
  }

  /**
   * The game so far: each dispatched move was made on a snapshot the loop did
   * not stop at, at most 501 moves are made, a stopped game ends on the
   * snapshot after the last move, and while the carried stuck counter is low
   * the moves are the policy's.
   */
  ghost predicate Progress(seen: seq<Snapshot>, dispatched: seq<Move>, outcome: Option<Terminal>, carried: nat) {
    var n := |dispatched|;
    n <= MoveCeiling + 1 &&
    |seen| == n + (if outcome.Some? then 1 else 0) &&
    (forall k :: 0 <= k < n ==> !StopsAt(seen[k], k)) &&
    (outcome.Some? ==> StopsAt(seen[n], n) && outcome.value == Verdict(seen[n], n)) &&
    (carried + 4 <= StuckThreshold ==> dispatched == PolicyMoves(seen, n))
  }

  /** Stopping on a snapshot ends the game with that snapshot's verdict. */
  lemma ProgressStop(seen: seq<Snapshot>, dispatched: seq<Move>, state: Snapshot, carried: nat, reason: Terminal)
    requires Progress(seen, dispatched, None, carried) && StopsAt(state, |dispatched|)
    requires reason == Verdict(state, |dispatched|)
    ensures Progress(seen + [state], dispatched, Some(reason), carried)
  {
    var seen' := seen + [state];
    assert forall k :: 0 <= k < |seen| ==> seen'[k] == seen[k];
    if carried + 4 <= StuckThreshold {
      PolicyMovesPrefix(seen, state, |dispatched|);
    }
  }

  /** Pressing the policy's key on a snapshot the loop does not stop at extends the game by one move. */
  lemma ProgressPress(seen: seq<Snapshot>, dispatched: seq<Move>, state: Snapshot, carried: nat, stuckCounter: nat, move: Move)
    requires Progress(seen, dispatched, None, carried) && !StopsAt(state, |dispatched|)
    requires carried + 4 <= StuckThreshold ==> stuckCounter <= StuckThreshold
    requires move == SelectNextMove(state.grid, |dispatched|, stuckCounter)
    ensures Progress(seen + [state], dispatched + [move], None, carried)
  {
    var seen' := seen + [state];
    var n := |dispatched|;
    assert forall k :: 0 <= k < |seen| ==> seen'[k] == seen[k];
    assert seen'[n] == state;
    if carried + 4 <= StuckThreshold {
      PolicyMovesPrefix(seen, state, n);
      StuckCounterBelowThreshold(state.grid, n, stuckCounter);
    }
  }

  /** What a game that ran on a prefix of `states` has done, stated on `states`. */
  lemma GameOutcome(states: seq<Snapshot>, seen: seq<Snapshot>, dispatched: seq<Move>, outcome: Option<Terminal>, carried: nat)
    requires Progress(seen, dispatched, outcome, carried)
    requires |seen| <= |states| && seen == states[..|seen|]
    requires outcome.None? ==> |seen| == |states|
    ensures var n := |dispatched|;
      n <= MoveCeiling + 1 &&
      (forall k :: 0 <= k < n ==> !StopsAt(states[k], k)) &&
      (outcome.None? ==> n == |states|) &&
      (outcome.Some? ==> n < |states| && StopsAt(states[n], n) && outcome.value == Verdict(states[n], n)) &&
      (outcome == Some(Timeout) ==> n == MoveCeiling + 1) &&
      (|states| > MoveCeiling + 1 ==> outcome.Some?) &&
      (carried + 4 <= StuckThreshold ==> forall k :: 0 <= k < n ==> dispatched[k] == SelectNextMove(states[k].grid, k, 0))
  {
    var n := |dispatched|;
    assert forall k :: 0 <= k < |seen| ==> seen[k] == states[k];
    if carried + 4 <= StuckThreshold {
      PolicyMovesAt(seen, n);
    }
  }

  /**
   * The advanced player's session. stuck_counter lives on the player and is
   * not reset when a game starts; `carried` is its value when the current
   * game began. previousMax and stuckMoves are the loop's local trackers.
   */
  class AdvancedGame2048AutoPlayer {
    var moveCount: nat
    var maxTile: int
    var stuckCounter: nat
    var previousMax: int
    var stuckMoves: nat
    ghost var seen: seq<Snapshot>
    ghost var dispatched: seq<Move>
    ghost var outcome: Option<Terminal>
    ghost var carried: nat

    ghost predicate Valid()
      reads this
    {
      Tracked(seen, carried, maxTile, previousMax, stuckMoves, stuckCounter) &&
      moveCount == |dispatched| && Progress(seen, dispatched, outcome, carried)
    }

    constructor ()
      ensures Valid()
      ensures moveCount == 0 && maxTile == 0 && stuckCounter == 0
      ensures seen == [] && dispatched == [] && outcome == None
    {
      moveCount := 0;
      maxTile := 0;
      stuckCounter := 0;
      previousMax := 0;
      stuckMoves := 0;
      seen := [];
      dispatched := [];
      outcome := None;
      carried := 0;
    }

    /**
     * The first half of a loop iteration: record a new maximum (which clears
     * the stuck counter) and track how long the maximum has not changed.
     */
    method Observe(state: Snapshot)
      requires Tracked(seen, carried, maxTile, previousMax, stuckMoves, stuckCounter)
      modifies this
      ensures Tracked(seen, carried, maxTile, previousMax, stuckMoves, stuckCounter)
      ensures seen == old(seen) + [state] && carried == old(carried)
      ensures moveCount == old(moveCount) && dispatched == old(dispatched) && outcome == old(outcome)
      ensures maxTile == Max(old(maxTile), state.maxTile) && previousMax == state.maxTile
      ensures state.maxTile > old(maxTile) ==> stuckCounter == 0 && stuckMoves == 0
      ensures state.maxTile != old(previousMax) ==>
        stuckMoves == 0 && stuckCounter == (if state.maxTile > old(maxTile) then 0 else old(stuckCounter))
      ensures state.maxTile == old(previousMax) && old(stuckMoves) < StuckWindow ==>
        stuckMoves == old(stuckMoves) + 1 && stuckCounter == old(stuckCounter)
      ensures state.maxTile == old(previousMax) && old(stuckMoves) == StuckWindow ==>
        stuckMoves == 0 && stuckCounter == old(stuckCounter) + 1
    {
      ghost var before := seen;
      seen := seen + [state];
      assert seen[..|before|] == before;
      if state.maxTile > maxTile {
        maxTile := state.maxTile;
        stuckCounter := 0;
        stuckMoves := 0;
      }
      if state.maxTile == previousMax {
        stuckMoves := stuckMoves + 1;
        if stuckMoves > StuckWindow {
          stuckCounter := stuckCounter + 1;
          stuckMoves := 0;
        }
      } else {
        stuckMoves := 0;
      }
      previousMax := state.maxTile;
    }

    /**
     * One iteration of the game loop: observe the snapshot, then stop on the
     * target, on game over or past the move ceiling, and otherwise press the
     * key the policy chooses and count the move.
     */
    method Step(state: Snapshot) returns (status: Status)
      requires Valid() && outcome.None?
      modifies this
      ensures Valid()
      ensures seen == old(seen) + [state] && carried == old(carried)
      ensures maxTile == Max(old(maxTile), state.maxTile) && previousMax == state.maxTile
      ensures state.maxTile > old(maxTile) ==> stuckCounter == 0 && stuckMoves == 0
      ensures state.maxTile != old(previousMax) ==>
        stuckMoves == 0 && stuckCounter == (if state.maxTile > old(maxTile) then 0 else old(stuckCounter))
      ensures state.maxTile == old(previousMax) && old(stuckMoves) < StuckWindow ==>
        stuckMoves == old(stuckMoves) + 1 && stuckCounter == old(stuckCounter)
      ensures state.maxTile == old(previousMax) && old(stuckMoves) == StuckWindow ==>
        stuckMoves == 0 && stuckCounter == old(stuckCounter) + 1
      ensures status ==
        if StopsAt(state, old(moveCount)) then Stop(Verdict(state, old(moveCount)))
        else Press(SelectNextMove(state.grid, old(moveCount), stuckCounter))
      ensures outcome == if status.Stop? then Some(status.reason) else None
      ensures moveCount == old(moveCount) + (if status.Press? then 1 else 0)
      ensures dispatched == old(dispatched) + (if status.Press? then [status.move] else [])
    {
      ghost var before := seen;
      Observe(state);
      if state.maxTile >= Target {
        ProgressStop(before, dispatched, state, carried, TargetReached);
        status := Stop(TargetReached);
        outcome := Some(TargetReached);
      } else if state.gameOver {
        ProgressStop(before, dispatched, state, carried, GameOver);
        status := Stop(GameOver);
        outcome := Some(GameOver);
      } else if moveCount > MoveCeiling {
        ProgressStop(before, dispatched, state, carried, Timeout);
        status := Stop(Timeout);
        outcome := Some(Timeout);
      } else {
        var move := SelectNextMove(state.grid, moveCount, stuckCounter);
        if carried + 4 <= StuckThreshold {
          StuckBound(stuckCounter - carried, stuckMoves, |seen|);
        }
        ProgressPress(before, dispatched, state, carried, stuckCounter, move);
        dispatched := dispatched + [move];
        moveCount := moveCount + 1;
        status := Press(move);
      }
    }

    /** Start of a game: reset the move counter, the maximum and the loop's trackers, not the stuck counter. */
    method Start()
      modifies this
      ensures Valid() && outcome.None?
      ensures moveCount == 0 && maxTile == 0 && previousMax == 0 && stuckMoves == 0
      ensures stuckCounter == old(stuckCounter) && carried == stuckCounter
      ensures seen == [] && dispatched == []
    {
      moveCount := 0;
      maxTile := 0;
      previousMax := 0;
      stuckMoves := 0;
      seen := [];
      dispatched := [];
      outcome := None;
      carried := stuckCounter;
    }

    /**
     * A whole game: start it, then run the loop on the snapshots in order
     * until it stops or the snapshots run out (None).
     */
    method PlayGame(states: seq<Snapshot>) returns (ended: Option<Terminal>, moves: seq<Move>)
      modifies this
      ensures Valid() && ended == outcome && moves == dispatched && carried == old(stuckCounter)
      ensures |seen| <= |states| && seen == states[..|seen|]
      ensures maxTile == HighestTile(seen)
      ensures |moves| == moveCount <= MoveCeiling + 1
      ensures stuckCounter <= old(stuckCounter) + 4
      ensures old(stuckCounter) + 4 <= StuckThreshold ==>
        forall k :: 0 <= k < |moves| ==> moves[k] == SelectNextMove(states[k].grid, k, 0)
      ensures forall k :: 0 <= k < moveCount ==> !StopsAt(states[k], k)
      ensures ended.None? ==> |seen| == |states| == moveCount
      ensures ended.Some? ==>
        moveCount < |states| && StopsAt(states[moveCount], moveCount) &&
        ended.value == Verdict(states[moveCount], moveCount)
      ensures ended == Some(Timeout) ==> moveCount == MoveCeiling + 1
      ensures |states| > MoveCeiling + 1 ==> ended.Some?
    {
      Start();
      ended := None;
      moves := [];
      var i := 0;
      while i < |states| && ended.None?
        invariant Valid() && ended == outcome && moves == dispatched && carried == old(stuckCounter)
        invariant i == |seen| <= |states| && seen == states[..i]
      {
        var status := Step(states[i]);
        assert states[..i + 1] == states[..i] + [states[i]];
        match status {
          case Press(move) => moves := moves + [move];
          case Stop(reason) => ended := Some(reason);
        }
        i := i + 1;
      }
      GameOutcome(states, seen, dispatched, outcome, carried);
      StuckBound(stuckCounter - carried, stuckMoves, |seen|);
    }
  }
}
