/** Values shared by both auto-players: moves, loop outcomes and running maxima. */
module Common {

  datatype Option<T> = None | Some(value: T) {
    function GetOr(default: T): T {
      match this
      case Some(v) => v
      case None => default
    }
  }

  /** The four key presses a player can dispatch. */
  datatype Move = Up | Left | Down | Right {
    /** The key that is pressed for this move. */
    function Key(): char {
      match this
      case Up => 'w'
      case Left => 'a'
      case Down => 's'
      case Right => 'd'
    }
  }

  /** The ways a game loop ends. */
  datatype Terminal = TargetReached | GameOver | Timeout

  /** What one iteration of a game loop does: press a key, or stop. */
  datatype Status = Press(move: Move) | Stop(reason: Terminal)

  /** The tile value whose appearance ends a game as a success. */
  const Target: int := 2048

  function Max(a: int, b: int): int {
    if a < b then b else a
  }
}
