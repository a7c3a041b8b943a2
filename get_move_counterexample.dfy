/**
 * A concrete position on which `get_move` of game_agent.py, as written,
 * returns something that is not a legal move although legal moves exist.
 */
module GetMoveCounterexample {
  import opened Common
  import opened Scores
  import opened GameAgent

  /**
   * A position with one legal move, `(0, 0)`, after which the searching
   * player has lost: its utility is `-inf`.
   */
  function LosingGame(): Game<int>
  {
    Game(LosingMoves, LosingForecast, LosingUtility)
  }

  /** Position 0 has the one legal move `(0, 0)`; position 1 has none. */
  function LosingMoves(g: int): seq<Cell>
  {
    if g == 0 then [(0, 0)] else []
  }

  /** Every move leads to position 1. */
  function LosingForecast(g: int, m: Cell): int
  {
    1
  }

  /** Position 0 is undecided; every other position is lost for the searching player. */
  function LosingUtility(g: int): Score
  {
    if g == 0 then Fin(0) else NegInf
  }

  /** The heuristic score used in the example: always 0. */
  function ZeroScore(g: int): Score
  {
    Fin(0)
  }

  /** Every search of `LosingGame` at depth 1 or more finds no move: `-inf` never beats the initial `-inf`. */
  lemma LosingGameHasNoBest(score: int -> Score, depth: nat)
    requires depth > 0
    ensures MinimaxResult(LosingGame(), score, 0, depth, true) == (NegInf, None)
  {
    var game := LosingGame();
    assert game.legalMoves(0) == [(0, 0)];
    assert MinimaxResult(game, score, 1, depth - 1, false) == (NegInf, Some(NoMove));
    assert Outcomes(game, score, 0, [(0, 0)], depth - 1, false) == [NegInf];
  }

  /**
   * `get_move` as written, with `legal_moves == [(0, 0)]`, for a player
   * searching to depth 1 with alpha-beta (any method name other than
   * `"minimax"`): when the only child is lost it returns `None`, and when the
   * first search times out it returns `(-1, -1)`. Neither is a legal move.
   */
  method AsWrittenIllegalMoves() returns (lost: Option<Cell>, late: Option<Cell>)
    ensures lost == None
    ensures late == Some(NoMove) && NoMove !in [(0, 0)]
  {
    var score := ZeroScore;
    var player := new CustomPlayer<int>(1, score, false, "");
    LosingGameHasNoBest(score, 1);
    lost := player.GetMove(LosingGame(), 0, [(0, 0)], 1);
    late := player.GetMove(LosingGame(), 0, [(0, 0)], 0);
  }
}
