/** Values shared by the round engine: phases, player records, the read-only
    question bank and the round state the server keeps in `gameState`. */
module Types {

  datatype Option<T> = None | Some(value: T)

  /** The three phases of a round. */
  datatype Phase = Registration | Question | Review

  /** One registered participant; `currentAnswer` is `None` for JavaScript's `null`,
      `deathRound` is -1 until the player is eliminated. */
  datatype Player = Player(
    name: string,
    studentId: string,
    isAlive: bool,
    currentAnswer: Option<int>,
    deathRound: int)

  /** One entry of the question bank. */
  datatype QuestionRecord = QuestionRecord(text: string, options: seq<string>, correctIndex: int)

  /** The module-level `gameState` object. `timeRemaining` is in tenths of a second;
      `questionStats` maps a question index to its four per-option counts. */
  datatype GameState = GameState(
    phase: Phase,
    currentQuestionIndex: int,
    timeRemaining: int,
    aliveCount: nat,
    presenterMode: string,
    questionStats: map<int, seq<nat>>)

  const OPTION_COUNT := 4
  const GAME_VIEW := "GAME"

  /** The state the server starts in and `resetGame` returns to. */
  function InitialGameState(): GameState
  {
    GameState(Registration, -1, 0, 0, GAME_VIEW, map[])
  }
}
