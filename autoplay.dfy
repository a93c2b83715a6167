/**
 * The simple auto-player: it reads the score, the largest tile and the
 * game-over flag from the page, picks a move from a fixed cyclic pattern with
 * two periodic overrides, and loops until the target tile appears or the game
 * is over. Page reads are given as a `Page` value, and key presses are the
 * moves the loop returns.
 */
module AutoPlay {
  import opened Common
  import opened PageText

  /** What the page shows: score element text (if any), every cell's text, the overlay. */
  datatype Page = Page(scoreText: Option<string>, cellTexts: seq<string>, overlay: Overlay)

  /** One observation of the game. */
  datatype Snapshot = Snapshot(score: nat, maxTile: int, gameOver: bool)

  /** The values of the cells whose text int() accepts, in page order. */
  function ParsedValues(texts: seq<string>): seq<int>
  {
    if texts == [] then []
    else ParsedValues(texts[..|texts| - 1]) + ParsedLast(texts)
  }

  function ParsedLast(texts: seq<string>): seq<int>
    requires texts != []
  {
    match ParseInt(texts[|texts| - 1]) case Some(v) => [v] case None => []
  }

  /** Exactly the values int() accepts are collected, unparsable and empty texts are skipped. */
  lemma {:induction false} ParsedValuesMembers(texts: seq<string>)
    ensures forall v :: v in ParsedValues(texts) <==> exists k :: 0 <= k < |texts| && ParseInt(texts[k]) == Some(v)
  {
    if texts != [] {
      var init := texts[..|texts| - 1];
      ParsedValuesMembers(init);
      assert forall k :: 0 <= k < |init| ==> init[k] == texts[k];
    }
  }

  /** The maximum of 0 and every element of `xs`. */
  function Peak(xs: seq<int>): (r: int)
    ensures r >= 0
    ensures forall k :: 0 <= k < |xs| ==> xs[k] <= r
    ensures r == 0 || exists k :: 0 <= k < |xs| && xs[k] == r
  {
    if xs == [] then 0 else Max(Peak(xs[..|xs| - 1]), xs[|xs| - 1])
  }

  lemma PeakAppend(xs: seq<int>, x: int)
    ensures Peak(xs + [x]) == Max(Peak(xs), x)
  {
    assert (xs + [x])[..|xs|] == xs;
  }

  /** Reads one snapshot; the cell loop folds a running maximum that starts at 0. */
  method GetGameState(page: Page) returns (state: Snapshot)
    ensures state.score == ScoreOf(page.scoreText)
    ensures state.maxTile == Peak(ParsedValues(page.cellTexts))
    ensures state.gameOver == IsGameOver(page.overlay)
  {
    var score := ScoreOf(page.scoreText);
    var tiles := page.cellTexts;
    var maxTile := 0;
    for k := 0 to |tiles|
      invariant maxTile == Peak(ParsedValues(tiles[..k]))
    {
      var text := tiles[k];
      ghost var before := ParsedValues(tiles[..k]);
      assert tiles[..k + 1][..k] == tiles[..k];
      assert ParsedValues(tiles[..k + 1]) == before + ParsedLast(tiles[..k + 1]);
      if text != [] {
        match ParseInt(text) {
          case Some(value) =>
            PeakAppend(before, value);
            maxTile := Max(maxTile, value);
          case None =>
            assert before + [] == before;
        }
      } else {
        assert before + [] == before;
      }
    }
    assert tiles[..|tiles|] == tiles;
    state := Snapshot(score, maxTile, IsGameOver(page.overlay));
  }

  /** The default cycle: left and down, biased toward down. */
  const Pattern: seq<Move> := [Left, Down, Left, Down, Left, Down, Down]

  /**
   * The next move for a given move count. The 'right' override for counts
   * 29 mod 30 is never taken: each such count is also 9 mod 10, and the 'up'
   * override is checked first.
   */
  function SelectNextMove(moveCount: nat): (move: Move)
    ensures move == Up <==> moveCount % 10 == 9
    ensures move != Right
    ensures move == Left <==> moveCount % 10 != 9 && moveCount % 7 in {0, 2, 4}
    ensures move == Down <==> moveCount % 10 != 9 && moveCount % 7 in {1, 3, 5, 6}
  {
    if moveCount % 10 == 9 then Up
    else if moveCount % 30 == 29 then Right
    else Pattern[moveCount % |Pattern|]
  }

  /** The maximum of 0 and the tile maximum of every snapshot. */
  function HighestTile(states: seq<Snapshot>): int {
    if states == [] then 0 else Max(HighestTile(states[..|states| - 1]), states[|states| - 1].maxTile)
  }

  /** HighestTile is the largest tile seen, and 0 before any tile is seen. */
  lemma {:induction false} HighestTileIsMax(states: seq<Snapshot>)
    ensures HighestTile(states) >= 0
    ensures forall k :: 0 <= k < |states| ==> states[k].maxTile <= HighestTile(states)
    ensures HighestTile(states) == 0 || exists k :: 0 <= k < |states| && states[k].maxTile == HighestTile(states)
  {
    if states != [] {
      var init := states[..|states| - 1];
      HighestTileIsMax(init);
      assert forall k :: 0 <= k < |init| ==> init[k] == states[k];
    }
  }

  /** Whether the loop stops on this snapshot. */
  predicate StopsAt(state: Snapshot) {
    state.maxTile >= Target || state.gameOver
  }

  /** Why the loop stops on a snapshot it stops at: the target is checked before game over. */
  function Verdict(state: Snapshot): (reason: Terminal)
    requires StopsAt(state)
    ensures reason == TargetReached <==> state.maxTile >= Target
    ensures reason == GameOver <==> state.maxTile < Target && state.gameOver
    ensures reason != Timeout
  {
    if state.maxTile >= Target then TargetReached else GameOver
  }

  /**
   * The game so far: move k was the policy's choice for move count k, made
   * on a snapshot the loop did not stop at, and a stopped game ends on the
   * snapshot after the last move.
   */
  ghost predicate Progress(seen: seq<Snapshot>, dispatched: seq<Move>, outcome: Option<Terminal>) {
    var n := |dispatched|;
    |seen| == n + (if outcome.Some? then 1 else 0) &&
    (forall k :: 0 <= k < n ==> !StopsAt(seen[k]) && dispatched[k] == SelectNextMove(k)) &&
    (outcome.Some? ==> StopsAt(seen[n]) && outcome.value == Verdict(seen[n]))
  }

  /** Stopping on a snapshot ends the game with that snapshot's verdict. */
  lemma ProgressStop(seen: seq<Snapshot>, dispatched: seq<Move>, state: Snapshot, reason: Terminal)
    requires Progress(seen, dispatched, None) && StopsAt(state) && reason == Verdict(state)
    ensures Progress(seen + [state], dispatched, Some(reason))
  {
    var seen' := seen + [state];
    assert forall k :: 0 <= k < |seen| ==> seen'[k] == seen[k];
  }

  /** Pressing the policy's key on a snapshot the loop does not stop at extends the game by one move. */
  lemma ProgressPress(seen: seq<Snapshot>, dispatched: seq<Move>, state: Snapshot, move: Move)
    requires Progress(seen, dispatched, None) && !StopsAt(state) && move == SelectNextMove(|dispatched|)
    ensures Progress(seen + [state], dispatched + [move], None)
  {
    var seen' := seen + [state];
    assert forall k :: 0 <= k < |seen| ==> seen'[k] == seen[k];
  }

  /** What a game that ran on a prefix of `states` has done, stated on `states`. */
  lemma GameOutcome(states: seq<Snapshot>, seen: seq<Snapshot>, dispatched: seq<Move>, outcome: Option<Terminal>)
    requires Progress(seen, dispatched, outcome)
    requires |seen| <= |states| && seen == states[..|seen|]
    requires outcome.None? ==> |seen| == |states|
    ensures var n := |dispatched|;
      (forall k :: 0 <= k < n ==> !StopsAt(states[k]) && dispatched[k] == SelectNextMove(k)) &&
      (outcome.None? ==> n == |states|) &&
      (outcome.Some? ==> n < |states| && StopsAt(states[n]) && outcome.value == Verdict(states[n]))
  {
    assert forall k :: 0 <= k < |seen| ==> seen[k] == states[k];
  }

  /**
   * The simple player's session: the move counter and the largest tile seen.
   * The ghost fields record the current game so far: the snapshots read, the
   * moves dispatched and, once the loop has stopped, why.
   */
  class Game2048AutoPlayer {
    var moveCount: nat
    var maxTile: int
    ghost var seen: seq<Snapshot>
    ghost var dispatched: seq<Move>
    ghost var outcome: Option<Terminal>

    ghost predicate Valid()
      reads this
    {
      maxTile == HighestTile(seen) && moveCount == |dispatched| && Progress(seen, dispatched, outcome)
    }

    constructor ()
      ensures Valid()
      ensures moveCount == 0 && maxTile == 0
      ensures seen == [] && dispatched == [] && outcome == None
    {
      moveCount := 0;
      maxTile := 0;
      seen := [];
      dispatched := [];
      outcome := None;
    }

    /** Start of a game: reset the move counter and the maximum. */
    method Start()
      modifies this
      ensures Valid() && outcome.None?
      ensures moveCount == 0 && maxTile == 0
      ensures seen == [] && dispatched == []
    {
      moveCount := 0;
      maxTile := 0;
      seen := [];
      dispatched := [];
      outcome := None;
    }

    /**
     * One iteration of the game loop on a fresh snapshot: record a new maximum,
     * then stop on the target tile, then on game over, and otherwise press the
     * key for the current move count and count the move.
     */
    method Step(state: Snapshot) returns (status: Status)
      requires Valid() && outcome.None?
      modifies this
      ensures Valid()
      ensures seen == old(seen) + [state]
      ensures maxTile == Max(old(maxTile), state.maxTile)
      ensures status == if StopsAt(state) then Stop(Verdict(state)) else Press(SelectNextMove(old(moveCount)))
      ensures outcome == if status.Stop? then Some(status.reason) else None
      ensures moveCount == old(moveCount) + (if status.Press? then 1 else 0)
      ensures dispatched == old(dispatched) + (if status.Press? then [status.move] else [])
    {
      ghost var before := seen;
      seen := seen + [state];
      assert seen[..|before|] == before;
      if state.maxTile > maxTile {
        maxTile := state.maxTile;
      }
      if state.maxTile >= Target {
        ProgressStop(before, dispatched, state, TargetReached);
        status := Stop(TargetReached);
        outcome := Some(TargetReached);
      } else if state.gameOver {
        ProgressStop(before, dispatched, state, GameOver);
        status := Stop(GameOver);
        outcome := Some(GameOver);
      } else {
        var move := SelectNextMove(moveCount);
        ProgressPress(before, dispatched, state, move);
        dispatched := dispatched + [move];
        moveCount := moveCount + 1;
        status := Press(move);
      }
    }

    /**
     * A whole game: start it, then run the loop on the snapshots in order
     * until it stops or the snapshots run out (None).
     */
    method PlayGame(states: seq<Snapshot>) returns (ended: Option<Terminal>, moves: seq<Move>)
      modifies this
      ensures Valid() && ended == outcome && moves == dispatched
      ensures |seen| <= |states| && seen == states[..|seen|]
      ensures maxTile == HighestTile(seen)
      ensures |moves| == moveCount
      ensures forall k :: 0 <= k < |moves| ==> moves[k] == SelectNextMove(k)
      ensures forall k :: 0 <= k < moveCount ==> !StopsAt(states[k])
      ensures ended.None? ==> |seen| == |states| == moveCount
      ensures ended.Some? ==>
        moveCount < |states| && StopsAt(states[moveCount]) && ended.value == Verdict(states[moveCount])
    {
      Start();
      ended := None;
      moves := [];
      var i := 0;
      while i < |states| && ended.None?
        invariant Valid() && ended == outcome && moves == dispatched
        invariant i == |seen| <= |states| && seen == states[..i]
      {
        var status := Step(states[i]);
        assert states[..i + 1] == states[..i] + [states[i]];
        match status {
          case Press(move) => moves := moves + [move];
          case Stop(reason) => ended := Some(reason);
        }
        i := i + 1;
      }
      GameOutcome(states, seen, dispatched, outcome);
    }
  }
}
