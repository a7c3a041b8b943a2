/**
 * The search agent of game_agent.py: `cut_off_test`, the shared
 * `_minimax_alphabeta` recursion (fail-soft alpha-beta when asked), the
 * `minimax` and `alphabeta` entry points and the iterative-deepening
 * `get_move`. The game is an abstract interface; the clock is a countdown of
 * entry checks that still pass.
 */
module GameAgent {
  import opened Common
  import opened Scores

  /** The `(-1, -1)` move. */
  const NoMove: Cell := (-1, -1)

  /**
   * The parts of `isolation.Board` the search uses, seen from the searching
   * player: `get_legal_moves()` (moves of the player to move),
   * `forecast_move(move)` and `utility(self)`.
   */
  datatype Game<!G> = Game(legalMoves: G -> seq<Cell>, forecast: (G, Cell) -> G, utility: G -> Score)

  /**
   * `cut_off_test`: a nonzero utility stops the search at any depth and is
   * the value; otherwise depth 0 stops it with the heuristic score.
   */
  function CutOffTest<G>(game: Game<G>, score: G -> Score, g: G, depth: nat): (r: (bool, Option<Score>, Cell))
    ensures game.utility(g) != Fin(0) ==> r == (true, Some(game.utility(g)), NoMove)
    ensures game.utility(g) == Fin(0) && depth == 0 ==> r == (true, Some(score(g)), NoMove)
    ensures game.utility(g) == Fin(0) && depth != 0 ==> r == (false, None, NoMove)
  {
    var utility := game.utility(g);
    if utility != Fin(0) then (true, Some(utility), NoMove)
    else if depth == 0 then (true, Some(score(g)), NoMove)
    else (false, None, NoMove)
  }

  /** The value `v` starts from: `-inf` at a maximising node, `inf` at a minimising one. */
  function Initial(maximise: bool): Score
  {
    if maximise then NegInf else PosInf
  }

  /** The value nothing can beat: `inf` when maximising, `-inf` when minimising. */
  function Extreme(maximise: bool): Score
  {
    if maximise then PosInf else NegInf
  }

  /** `score > v if maximise else score < v`. */
  predicate Improves(maximise: bool, s: Score, v: Score)
  {
    if maximise then Lt(v, s) else Lt(s, v)
  }

  /**
   * The child loop without pruning over the children's values `vals`: a
   * strictly better value replaces `(v, best)`, so ties keep the earlier move.
   */
  function Pick(moves: seq<Cell>, vals: seq<Score>, maximise: bool): (r: (Score, Option<Cell>))
    requires |moves| == |vals|
    ensures r.1.Some? ==> r.1.value in moves
    decreases |moves|
  {
    if |moves| == 0 then (Initial(maximise), None)
    else
      var n := |moves| - 1;
      var (v, best) := Pick(moves[..n], vals[..n], maximise);
      if Improves(maximise, vals[n], v) then (vals[n], Some(moves[n])) else (v, best)
  }

  /**
   * The minimax value and move of a node, as `_minimax_alphabeta` computes
   * them without pruning: a cut-off node answers its utility or score with
   * `(-1, -1)`, any other node one of its legal moves or `None`.
   */
  function MinimaxResult<G>(game: Game<G>, score: G -> Score, g: G, depth: nat, maximise: bool): (r: (Score, Option<Cell>))
    ensures game.utility(g) != Fin(0) ==> r == (game.utility(g), Some(NoMove))
    ensures game.utility(g) == Fin(0) && depth == 0 ==> r == (score(g), Some(NoMove))
    ensures game.utility(g) == Fin(0) && depth > 0 ==> r.1.None? || r.1.value in game.legalMoves(g)
    decreases depth, 0
  {
    var (cutOff, s, move) := CutOffTest(game, score, g, depth);
    if cutOff then (s.value, Some(move))
    else
      var moves := game.legalMoves(g);
      Pick(moves, Outcomes(game, score, g, moves, depth - 1, !maximise), maximise)
  }

  /** The minimax value of each child, searched at `depth` with the role given. */
  function Outcomes<G>(game: Game<G>, score: G -> Score, g: G, moves: seq<Cell>, depth: nat, maximise: bool): (vals: seq<Score>)
    ensures |vals| == |moves|
    decreases depth, 1
  {
    seq(|moves|, i requires 0 <= i < |moves| => MinimaxResult(game, score, game.forecast(g, moves[i]), depth, maximise).0)
  }

  /**
   * Fail-soft alpha-beta's promise about a result `v` searched with window
   * `(alpha, beta)` when the true value is `m`: exact inside the window, an
   * upper bound at or below `alpha`, a lower bound at or above `beta`.
   */
  predicate FailSoft(v: Score, m: Score, alpha: Score, beta: Score)
  {
    && (Le(v, alpha) ==> Le(m, v))
    && (Le(beta, v) ==> Le(v, m))
    && (Lt(alpha, v) && Lt(v, beta) ==> v == m)
  }

  /** A maximising node's loop state: `v` below `beta` and a fail-soft bound on the best value `p` so far. */
  predicate MaxWindow(alpha: Score, beta: Score, v: Score, p: Score)
  {
    Lt(v, beta) && (Le(v, alpha) ==> Le(p, v)) && (Lt(alpha, v) ==> p == v)
  }

  /** A minimising node's loop state: `v` above `alpha` and a fail-soft bound on the best value `p` so far. */
  predicate MinWindow(alpha: Score, beta: Score, v: Score, p: Score)
  {
    Lt(alpha, v) && (Le(beta, v) ==> Le(v, p)) && (Lt(v, beta) ==> p == v)
  }

  /**
   * One child at a maximising node: searched with window `(max(alpha, v), beta)`
   * it returns `s` for true value `m`; either `v` reaches `beta` and stays a
   * lower bound, or the loop state carries over.
   */
  lemma MaxStep(alpha: Score, beta: Score, v: Score, p: Score, s: Score, m: Score)
    requires Lt(alpha, beta) && MaxWindow(alpha, beta, v, p) && FailSoft(s, m, Max(alpha, v), beta)
    ensures var v', p' := Max(v, s), Max(p, m);
      if Le(beta, v') then Le(v', p') else MaxWindow(alpha, beta, v', p') && Max(Max(alpha, v), v') == Max(alpha, v')
  {
    Order(alpha, beta, v);
    Order(v, s, m);
    Order(p, m, s);
  }

  /** One child at a minimising node, the mirror image of `MaxStep`. */
  lemma MinStep(alpha: Score, beta: Score, v: Score, p: Score, s: Score, m: Score)
    requires Lt(alpha, beta) && MinWindow(alpha, beta, v, p) && FailSoft(s, m, alpha, Min(beta, v))
    ensures var v', p' := Min(v, s), Min(p, m);
      if Le(v', alpha) then Le(p', v') else MinWindow(alpha, beta, v', p') && Min(Min(beta, v), v') == Min(beta, v')
  {
    Order(alpha, beta, v);
    Order(v, s, m);
    Order(p, m, s);
  }

  /**
   * At the root window a child searched with window `(v, inf)` (or
   * `(-inf, v)` when minimising) replaces `v` exactly when its true value
   * would, and with that value.
   */
  lemma FullWindowStep(maximise: bool, v: Score, s: Score, m: Score)
    requires maximise ==> Lt(v, PosInf) && FailSoft(s, m, v, PosInf)
    requires !maximise ==> Lt(NegInf, v) && FailSoft(s, m, NegInf, v)
    ensures Improves(maximise, s, v) <==> Improves(maximise, m, v)
    ensures Improves(maximise, s, v) ==> s == m
  {
    Order(v, s, m);
    Order(s, m, v);
  }

  /** `Pick` on one more child. */
  lemma PickStep(moves: seq<Cell>, vals: seq<Score>, maximise: bool, i: nat)
    requires |moves| == |vals| && i < |moves|
    ensures var prev := Pick(moves[..i], vals[..i], maximise);
      Pick(moves[..i + 1], vals[..i + 1], maximise) ==
        if Improves(maximise, vals[i], prev.0) then (vals[i], Some(moves[i])) else prev
  {
    assert moves[..i + 1][..i] == moves[..i];
    assert vals[..i + 1][..i] == vals[..i];
  }

  /** The value over all children is at least as good as over the first `i`. */
  lemma {:induction false} PickMonotone(moves: seq<Cell>, vals: seq<Score>, maximise: bool, i: nat)
    requires |moves| == |vals| && i <= |moves|
    ensures !Improves(maximise, Pick(moves[..i], vals[..i], maximise).0, Pick(moves, vals, maximise).0)
  {
    var n := |moves|;
    assert moves[..n] == moves && vals[..n] == vals;
    if i < n {
      PickMonotone(moves[..n - 1], vals[..n - 1], maximise, i);
      assert moves[..n - 1][..i] == moves[..i];
      assert vals[..n - 1][..i] == vals[..i];
      Order(Pick(moves[..i], vals[..i], maximise).0, Pick(moves[..n - 1], vals[..n - 1], maximise).0, Pick(moves, vals, maximise).0);
    }
  }

  /** Once the first `i` children reach the unbeatable value, the rest change nothing. */
  lemma {:induction false} PickSaturated(moves: seq<Cell>, vals: seq<Score>, maximise: bool, i: nat)
    requires |moves| == |vals| && i <= |moves|
    requires Pick(moves[..i], vals[..i], maximise).0 == Extreme(maximise)
    ensures Pick(moves, vals, maximise) == Pick(moves[..i], vals[..i], maximise)
  {
    var n := |moves|;
    assert moves[..n] == moves && vals[..n] == vals;
    if i < n {
      assert moves[..n - 1][..i] == moves[..i];
      assert vals[..n - 1][..i] == vals[..i];
      PickSaturated(moves[..n - 1], vals[..n - 1], maximise, i);
    }
  }

  /**
   * What `Pick` means: its value is the best of `vals` (or the initial
   * value when there is none better), `best` is `None` exactly when nothing
   * beat the initial value, and otherwise it is the first move reaching the value.
   */
  lemma {:induction false} PickIsFirstBest(moves: seq<Cell>, vals: seq<Score>, maximise: bool)
    requires |moves| == |vals|
    ensures var (v, best) := Pick(moves, vals, maximise);
      && (forall i :: 0 <= i < |vals| ==> !Improves(maximise, vals[i], v))
      && (best.None? <==> v == Initial(maximise))
      && (best.Some? ==> exists k :: (0 <= k < |moves| && best == Some(moves[k]) && vals[k] == v
            && forall j :: 0 <= j < k ==> Improves(maximise, v, vals[j])))
  {
    if |moves| > 0 {
      var n := |moves| - 1;
      PickIsFirstBest(moves[..n], vals[..n], maximise);
      var (v, best) := Pick(moves[..n], vals[..n], maximise);
      assert forall i :: 0 <= i < n ==> vals[..n][i] == vals[i];
      if Improves(maximise, vals[n], v) {
        forall j | 0 <= j < n ensures Improves(maximise, vals[n], vals[j]) {
          Order(vals[j], v, vals[n]);
        }
        Order(v, vals[n], Initial(maximise));
      } else if best.Some? {
        var k :| 0 <= k < n && best == Some(moves[..n][k]) && vals[..n][k] == v
          && forall j :: 0 <= j < k ==> Improves(maximise, v, vals[..n][j]);
        assert moves[..n][k] == moves[k];
      }
    }
  }

  /**
   * Without pruning, a node that is not cut off takes the best child value
   * (the maximum when maximising, the minimum otherwise), each child searched
   * one ply shallower in the other role; its move is the first child
   * reaching that value, and `None` when no child beats the initial value.
   */
  lemma MinimaxNode<G>(game: Game<G>, score: G -> Score, g: G, depth: nat, maximise: bool)
    requires game.utility(g) == Fin(0) && depth > 0
    ensures var (v, best) := MinimaxResult(game, score, g, depth, maximise);
      var moves := game.legalMoves(g);
      && (forall i :: 0 <= i < |moves| ==>
            !Improves(maximise, MinimaxResult(game, score, game.forecast(g, moves[i]), depth - 1, !maximise).0, v))
      && (best.None? <==> v == Initial(maximise))
      && (best.Some? ==> exists k :: (0 <= k < |moves| && best == Some(moves[k])
            && MinimaxResult(game, score, game.forecast(g, moves[k]), depth - 1, !maximise).0 == v
            && forall j :: 0 <= j < k ==> Improves(maximise, v, MinimaxResult(game, score, game.forecast(g, moves[j]), depth - 1, !maximise).0)))
  {
    var moves := game.legalMoves(g);
    var vals := Outcomes(game, score, g, moves, depth - 1, !maximise);
    PickIsFirstBest(moves, vals, maximise);
    assert forall i :: 0 <= i < |moves| ==> vals[i] == MinimaxResult(game, score, game.forecast(g, moves[i]), depth - 1, !maximise).0;
    assert MinimaxResult(game, score, g, depth, maximise) == Pick(moves, vals, maximise);
  }

  /**
   * The state of a node's child loop after the children whose `Pick` is
   * `pick`, for each way the node can be searched: `a` and `b` are the
   * window as the loop has narrowed it.
   */
  predicate Progress(maximise: bool, alphabeta: bool, alpha: Score, beta: Score,
                     a: Score, b: Score, v: Score, best: Option<Cell>, pick: (Score, Option<Cell>))
  {
    && (!alphabeta ==> (v, best) == pick)
    && (alphabeta && Lt(alpha, beta) && maximise ==>
          a == Max(alpha, v) && b == beta && MaxWindow(alpha, beta, v, pick.0))
    && (alphabeta && Lt(alpha, beta) && !maximise ==>
          a == alpha && b == Min(beta, v) && MinWindow(alpha, beta, v, pick.0))
    && (alphabeta && alpha == NegInf && beta == PosInf ==> (v, best) == pick)
  }

  /** What the search promises about `(v, best)` when the children's `Pick` is `total`. */
  predicate Outcome(maximise: bool, alphabeta: bool, alpha: Score, beta: Score,
                    v: Score, best: Option<Cell>, total: (Score, Option<Cell>))
  {
    && (!alphabeta ==> (v, best) == total)
    && (alphabeta && Lt(alpha, beta) ==> FailSoft(v, total.0, alpha, beta))
    && (alphabeta && alpha == NegInf && beta == PosInf ==> (v, best) == total)
  }

  /** The loop state after a cut: `v` is a bound on the children so far, and at the root it is unbeatable. */
  predicate Stopped(maximise: bool, alpha: Score, beta: Score, v: Score, best: Option<Cell>, pick: (Score, Option<Cell>))
  {
    && (Lt(alpha, beta) && maximise ==> Le(beta, v) && Le(v, pick.0))
    && (Lt(alpha, beta) && !maximise ==> Le(v, alpha) && Le(pick.0, v))
    && (alpha == NegInf && beta == PosInf ==> (v, best) == pick && v == Extreme(maximise))
  }

  /**
   * One pass of the child loop: the child searched with window `(a, b)`
   * returns `s` for true value `m`; afterwards the loop either cuts off
   * (`v >= beta` when maximising, `v <= alpha` when minimising) or carries
   * its state over to the next child.
   */
  lemma ChildStep(maximise: bool, alphabeta: bool, alpha: Score, beta: Score, a: Score, b: Score,
                  v: Score, best: Option<Cell>, pick: (Score, Option<Cell>), s: Score, m: Score, move: Cell)
    requires Progress(maximise, alphabeta, alpha, beta, a, b, v, best, pick)
    requires !alphabeta ==> s == m
    requires alphabeta && Lt(a, b) ==> FailSoft(s, m, a, b)
    ensures var (v', best') := if Improves(maximise, s, v) then (s, Some(move)) else (v, best);
      var pick' := if Improves(maximise, m, pick.0) then (m, Some(move)) else pick;
      var stop := alphabeta && (if maximise then Le(b, v') else Le(v', a));
      var (a', b') := if alphabeta then (if maximise then (Max(a, v'), b) else (a, Min(b, v'))) else (a, b);
      if stop then Stopped(maximise, alpha, beta, v', best', pick')
      else Progress(maximise, alphabeta, alpha, beta, a', b', v', best', pick')
  {
    if alphabeta && Lt(alpha, beta) {
      if maximise {
        MaxStep(alpha, beta, v, pick.0, s, m);
      } else {
        MinStep(alpha, beta, v, pick.0, s, m);
      }
      if alpha == NegInf && beta == PosInf {
        FullWindowStep(maximise, v, s, m);
      }
    }
  }

  /** `ChildStep` for child `i` of `moves`, with the running `Pick` over the first `i` and `i + 1` children. */
  lemma ChildAdvance(moves: seq<Cell>, vals: seq<Score>, i: nat, maximise: bool, alphabeta: bool,
                     alpha: Score, beta: Score, a: Score, b: Score, v: Score, best: Option<Cell>, s: Score)
    requires |moves| == |vals| && i < |moves|
    requires Progress(maximise, alphabeta, alpha, beta, a, b, v, best, Pick(moves[..i], vals[..i], maximise))
    requires !alphabeta ==> s == vals[i]
    requires alphabeta && Lt(a, b) ==> FailSoft(s, vals[i], a, b)
    ensures var (v', best') := if Improves(maximise, s, v) then (s, Some(moves[i])) else (v, best);
      var pick' := Pick(moves[..i + 1], vals[..i + 1], maximise);
      var stop := alphabeta && (if maximise then Le(b, v') else Le(v', a));
      var (a', b') := if alphabeta then (if maximise then (Max(a, v'), b) else (a, Min(b, v'))) else (a, b);
      if stop then Stopped(maximise, alpha, beta, v', best', pick')
      else Progress(maximise, alphabeta, alpha, beta, a', b', v', best', pick')
  {
    PickStep(moves, vals, maximise, i);
    ChildStep(maximise, alphabeta, alpha, beta, a, b, v, best, Pick(moves[..i], vals[..i], maximise), s, vals[i], moves[i]);
  }

  /** A cut keeps the promise: the children not searched cannot make the bound wrong. */
  lemma StopOutcome(maximise: bool, alpha: Score, beta: Score, v: Score, best: Option<Cell>,
                    pick: (Score, Option<Cell>), total: (Score, Option<Cell>))
    requires Stopped(maximise, alpha, beta, v, best, pick)
    requires !Improves(maximise, pick.0, total.0)
    requires pick.0 == Extreme(maximise) ==> total == pick
    ensures Outcome(maximise, true, alpha, beta, v, best, total)
  {
    Order(v, pick.0, total.0);
    Order(alpha, beta, v);
  }

  /** A cut after the first `i` children keeps the promise about all of them. */
  lemma CutOutcome(moves: seq<Cell>, vals: seq<Score>, maximise: bool, i: nat,
                   alpha: Score, beta: Score, v: Score, best: Option<Cell>)
    requires |moves| == |vals| && i <= |moves|
    requires Stopped(maximise, alpha, beta, v, best, Pick(moves[..i], vals[..i], maximise))
    ensures Outcome(maximise, true, alpha, beta, v, best, Pick(moves, vals, maximise))
  {
    var pick := Pick(moves[..i], vals[..i], maximise);
    PickMonotone(moves, vals, maximise, i);
    if pick.0 == Extreme(maximise) {
      PickSaturated(moves, vals, maximise, i);
    }
    StopOutcome(maximise, alpha, beta, v, best, pick, Pick(moves, vals, maximise));
  }

  /** Running out of children keeps the promise. */
  lemma DoneOutcome(maximise: bool, alphabeta: bool, alpha: Score, beta: Score, a: Score, b: Score,
                    v: Score, best: Option<Cell>, total: (Score, Option<Cell>))
    requires Progress(maximise, alphabeta, alpha, beta, a, b, v, best, total)
    ensures Outcome(maximise, alphabeta, alpha, beta, v, best, total)
  {
    Order(alpha, beta, v);
  }

  /**
   * `_minimax_alphabeta`. Without pruning it returns the minimax value and
   * move. With pruning and `alpha < beta` it is fail-soft with respect to
   * the minimax value; at the root window `(-inf, inf)` it returns exactly
   * the minimax value and move.
   */
  method Search<G>(game: Game<G>, score: G -> Score, g: G, depth: nat, maximise: bool,
                   alphabeta: bool, alpha: Score, beta: Score)
    returns (v: Score, best: Option<Cell>)
    ensures !alphabeta ==> (v, best) == MinimaxResult(game, score, g, depth, maximise)
    ensures alphabeta && Lt(alpha, beta) ==> FailSoft(v, MinimaxResult(game, score, g, depth, maximise).0, alpha, beta)
    ensures alphabeta && alpha == NegInf && beta == PosInf ==> (v, best) == MinimaxResult(game, score, g, depth, maximise)
    decreases depth, 0
  {
    var (cutOff, s, move) := CutOffTest(game, score, g, depth);
    if cutOff {
      return s.value, Some(move);
    }
    var moves := game.legalMoves(g);
    v, best := SearchChildren(game, score, g, moves, depth - 1, maximise, alphabeta, alpha, beta);
    assert MinimaxResult(game, score, g, depth, maximise) == Pick(moves, Outcomes(game, score, g, moves, depth - 1, !maximise), maximise);
  }

  /**
   * The child loop of `_minimax_alphabeta` over `moves`, each child searched
   * at `deeper` in the other role: a strictly better value replaces
   * `(v, best)`; with pruning the loop stops once `v >= beta` (maximising) or
   * `v <= alpha` (minimising), and otherwise narrows the window.
   */
  method SearchChildren<G>(game: Game<G>, score: G -> Score, g: G, moves: seq<Cell>, deeper: nat, maximise: bool,
                           alphabeta: bool, alpha: Score, beta: Score)
    returns (v: Score, best: Option<Cell>)
    ensures Outcome(maximise, alphabeta, alpha, beta, v, best, Pick(moves, Outcomes(game, score, g, moves, deeper, !maximise), maximise))
    decreases deeper, 1
  {
    best := None;
    var maxOrMin := !maximise;
    v := Initial(maximise);
    ghost var vals := Outcomes(game, score, g, moves, deeper, maxOrMin);
    var a, b := alpha, beta;
    var i := 0;
    while i < |moves|
      invariant 0 <= i <= |moves|
      invariant Progress(maximise, alphabeta, alpha, beta, a, b, v, best, Pick(moves[..i], vals[..i], maximise))
    {
      var childScore, _ := Search(game, score, game.forecast(g, moves[i]), deeper, maxOrMin, alphabeta, a, b);
      assert vals[i] == MinimaxResult(game, score, game.forecast(g, moves[i]), deeper, maxOrMin).0;
      ChildAdvance(moves, vals, i, maximise, alphabeta, alpha, beta, a, b, v, best, childScore);
      if Improves(maximise, childScore, v) {
        v, best := childScore, Some(moves[i]);
      }
      if alphabeta {
        var stop := if maximise then Le(b, v) else Le(v, a);
        if stop {
          CutOutcome(moves, vals, maximise, i + 1, alpha, beta, v, best);
          return;
        }
        if maximise {
          a := Max(a, v);
        } else {
          b := Min(b, v);
        }
      }
      i := i + 1;
    }
    assert moves[..i] == moves && vals[..i] == vals;
    DoneOutcome(maximise, alphabeta, alpha, beta, a, b, v, best, Pick(moves, vals, maximise));
  }

  /**
   * `CustomPlayer`. `clock` stands for the `time_left` callable that
   * `get_move` stores: the number of further `time_left() < TIMER_THRESHOLD`
   * checks that still pass. Only `minimax` and `alphabeta` check it, on entry.
   */
  class CustomPlayer<G> {
    const searchDepth: nat
    const iterative: bool
    const score: G -> Score
    /** Whether `self.fn` is `self.minimax`; any other method name selects `self.alphabeta`. */
    const useMinimax: bool
    var clock: nat

    constructor (searchDepth: nat, score: G -> Score, iterative: bool, searchMethod: string)
      ensures this.searchDepth == searchDepth && this.score == score && this.iterative == iterative
      ensures useMinimax == (searchMethod == "minimax")
      ensures clock == 0
    {
      this.searchDepth := searchDepth;
      this.iterative := iterative;
      this.score := score;
      this.useMinimax := searchMethod == "minimax";
      this.clock := 0;
    }

    /** `minimax`: `Timeout` (here `None`) once the clock has run out, otherwise the search without pruning. */
    method Minimax(game: Game<G>, g: G, depth: nat, maximizingPlayer: bool) returns (r: Option<(Score, Option<Cell>)>)
      modifies this
      ensures old(clock) == 0 ==> r == None && clock == 0
      ensures old(clock) > 0 ==> r == Some(MinimaxResult(game, score, g, depth, maximizingPlayer)) && clock == old(clock) - 1
    {
      if clock == 0 {
        return None;
      }
      clock := clock - 1;
      var v, best := Search(game, score, g, depth, maximizingPlayer, false, NegInf, PosInf);
      return Some((v, best));
    }

    /**
     * `alphabeta`: the same clock check, then the pruned search from the
     * root window `(-inf, inf)` whatever `alpha` and `beta` are passed; it
     * returns exactly what `minimax` returns.
     */
    method AlphaBeta(game: Game<G>, g: G, depth: nat, alpha: Score, beta: Score, maximizingPlayer: bool)
      returns (r: Option<(Score, Option<Cell>)>)
      modifies this
      ensures old(clock) == 0 ==> r == None && clock == 0
      ensures old(clock) > 0 ==> r == Some(MinimaxResult(game, score, g, depth, maximizingPlayer)) && clock == old(clock) - 1
    {
      if clock == 0 {
        return None;
      }
      clock := clock - 1;
      var v, best := Search(game, score, g, depth, maximizingPlayer, true, NegInf, PosInf);
      return Some((v, best));
    }

    /** `self.fn(game, depth, maximizing_player=True)`. */
    method Fn(game: Game<G>, g: G, depth: nat) returns (r: Option<(Score, Option<Cell>)>)
      modifies this
      ensures old(clock) == 0 ==> r == None && clock == 0
      ensures old(clock) > 0 ==> r == Some(MinimaxResult(game, score, g, depth, true)) && clock == old(clock) - 1
    {
      if useMinimax {
        r := Minimax(game, g, depth, true);
      } else {
        r := AlphaBeta(game, g, depth, NegInf, PosInf, true);
      }
    }

    /**
     * `get_move`: `(-1, -1)` without legal moves; otherwise searches depth 1,
     * 2, 3, ... (or only `search_depth`) until a search times out, and
     * returns the move of the last search that finished, `(-1, -1)` if none did.
     */
    method GetMove(game: Game<G>, g: G, legalMoves: seq<Cell>, timeLeft: nat) returns (best: Option<Cell>)
      modifies this
      ensures legalMoves == [] ==> best == Some(NoMove) && clock == old(clock)
      ensures legalMoves != [] && timeLeft == 0 ==> best == Some(NoMove) && clock == 0
      ensures legalMoves != [] && timeLeft > 0 ==>
        best == MinimaxResult(game, score, g, if iterative then timeLeft else searchDepth, true).1
        && clock == if iterative then 0 else timeLeft - 1
    {
      if legalMoves == [] {
        return Some(NoMove);
      }
      clock := timeLeft;
      best := Some(NoMove);
      if iterative {
        var depth := 1;
        while true
          invariant 1 <= depth && clock + depth - 1 == timeLeft
          invariant best == if depth == 1 then Some(NoMove) else MinimaxResult(game, score, g, depth - 1, true).1
          decreases clock
        {
          var r := Fn(game, g, depth);
          if r.None? {
            break;
          }
          best := r.value.1;
          depth := depth + 1;
        }
      } else {
        var r := Fn(game, g, searchDepth);
        if r.Some? {
          best := r.value.1;
        }
      }
    }

    /**
     * `get_move` as its documentation promises it: a legal move whenever
     * `legal_moves` is non-empty. The search's move is kept when it is legal;
     * otherwise (no child beat -inf, or the first search timed out) the first
     * legal move is returned.
     */
    method GetLegalMove(game: Game<G>, g: G, legalMoves: seq<Cell>, timeLeft: nat) returns (move: Cell)
      modifies this
      ensures legalMoves == [] ==> move == NoMove
      ensures legalMoves != [] ==> move in legalMoves
      ensures legalMoves != [] && timeLeft > 0 ==>
        var found := MinimaxResult(game, score, g, if iterative then timeLeft else searchDepth, true).1;
        found.Some? && found.value in legalMoves ==> move == found.value
    {
      var best := GetMove(game, g, legalMoves, timeLeft);
      if legalMoves == [] {
        move := NoMove;
      } else if best.Some? && best.value in legalMoves {
        move := best.value;
      } else {
        move := legalMoves[0];
      }
    }
  }
}
