/**
 * The scoring heuristics of my_heuristics.py and sample_players.py, and
 * `GreedyPlayer`. The two files define `get_moves`, `find_connected`,
 * `reachable_score`, `cut_off_reach_score` and `weighted_moves_score`
 * identically; each is modelled once here.
 */
module Heuristics {
  import opened Common
  import opened Scores
  import GA = GameAgent

  /**
   * What the heuristics read from an `isolation.Board`, from `player`'s
   * side: `width`, `height`, `get_blank_spaces()` (and `move_is_legal`,
   * membership in it), `is_loser(player)`, `is_winner(player)`,
   * `get_legal_moves` of the player and of the opponent, and both
   * `get_player_location`s (`None` before a player is placed).
   */
  datatype View = View(width: nat, height: nat, blanks: set<Cell>,
                       loser: bool, winner: bool,
                       ownMoves: seq<Cell>, oppMoves: seq<Cell>,
                       ownLocation: Option<Cell>, oppLocation: Option<Cell>)

  /** A player is never both the loser and the winner. */
  predicate Valid(v: View)
  {
    !(v.loser && v.winner)
  }

  /** The same board seen from the opponent: the opponent loses exactly when the player wins. */
  function Opponent(v: View): View
  {
    v.(loser := v.winner, winner := v.loser, ownMoves := v.oppMoves, oppMoves := v.ownMoves,
       ownLocation := v.oppLocation, oppLocation := v.ownLocation)
  }

  const KnightOffsets: seq<Cell> := [(-2, -1), (-2, 1), (-1, -2), (-1, 2), (1, -2), (1, 2), (2, -1), (2, 1)]

  const AdjacentOffsets: seq<Cell> := [(-1, -1), (-1, 0), (-1, 1), (0, -1), (0, 1), (1, -1), (1, 0), (1, 1)]

  function Add(c: Cell, d: Cell): Cell
  {
    (c.0 + d.0, c.1 + d.1)
  }

  /**
   * `get_moves`: the cells `(r+dr, c+dc)`, in offset order, that
   * `move_is_legal` accepts, that is, that are among the `blanks`.
   */
  function GetMoves(blanks: set<Cell>, move: Cell, directions: seq<Cell>): (r: seq<Cell>)
    ensures |r| <= |directions|
    ensures forall x :: x in r <==> x in blanks && exists d :: d in directions && x == Add(move, d)
    decreases |directions|
  {
    if directions == [] then []
    else
      var rest := GetMoves(blanks, move, directions[1..]);
      var c := Add(move, directions[0]);
      assert forall d :: d in directions <==> d == directions[0] || d in directions[1..];
      if c in blanks then [c] + rest else rest
  }

  // ---------------------------------------------------------------------
  // find_connected

  /** No legal move by an offset leads out of `s`. */
  predicate Closed(blanks: set<Cell>, directions: seq<Cell>, s: set<Cell>)
  {
    forall x, d :: x in s && d in directions && Add(x, d) in blanks ==> Add(x, d) in s
  }

  /** The cells one legal move away from some cell of `s`. */
  function Step(blanks: set<Cell>, directions: seq<Cell>, s: set<Cell>): (r: set<Cell>)
    ensures r <= blanks
  {
    set x, d | x in s && d in directions && Add(x, d) in blanks :: Add(x, d)
  }

  /** Adds cells one step at a time until nothing new is reachable. */
  function Closure(blanks: set<Cell>, directions: seq<Cell>, s: set<Cell>): set<Cell>
    decreases |blanks - s|
  {
    var next := s + Step(blanks, directions, s);
    if next == s then s
    else
      GrowthShrinksRest(blanks, s, next);
      Closure(blanks, directions, next)
  }

  /** A strictly larger set, grown only inside `u`, leaves fewer cells of `u` outside. */
  lemma GrowthShrinksRest(u: set<Cell>, s: set<Cell>, next: set<Cell>)
    requires s <= next && next != s && next - s <= u
    ensures |u - next| < |u - s|
  {
    assert next - s != {};
    var x :| x in next - s;
    assert u - next <= (u - s) - {x};
    SubsetCard(u - next, (u - s) - {x});
  }

  lemma RemoveOne(s: set<Cell>, x: Cell)
    requires x in s
    ensures |s - {x}| == |s| - 1
  {
    assert s == (s - {x}) + {x};
  }

  lemma {:induction false} SubsetCard(a: set<Cell>, b: set<Cell>)
    requires a <= b
    ensures |a| <= |b|
    decreases |b|
  {
    if a != {} {
      var x :| x in a;
      SubsetCard(a - {x}, b - {x});
    }
  }

  /** The cells connected to `start`: what `find_connected` returns. */
  function Connected(blanks: set<Cell>, directions: seq<Cell>, start: Cell): set<Cell>
  {
    Closure(blanks, directions, {start})
  }

  /** `Closure` keeps `s`, adds only legal cells, and is closed. */
  lemma {:induction false} ClosureIsClosed(blanks: set<Cell>, directions: seq<Cell>, s: set<Cell>)
    ensures s <= Closure(blanks, directions, s) <= s + blanks
    ensures Closed(blanks, directions, Closure(blanks, directions, s))
    decreases |blanks - s|
  {
    var next := s + Step(blanks, directions, s);
    if next == s {
      forall x, d | x in s && d in directions && Add(x, d) in blanks ensures Add(x, d) in s {
        assert Add(x, d) in Step(blanks, directions, s);
      }
    } else {
      GrowthShrinksRest(blanks, s, next);
      ClosureIsClosed(blanks, directions, next);
    }
  }

  /** `Closure` is the least closed set holding `s`. */
  lemma {:induction false} ClosureIsLeast(blanks: set<Cell>, directions: seq<Cell>, s: set<Cell>, t: set<Cell>)
    requires s <= t && Closed(blanks, directions, t)
    ensures Closure(blanks, directions, s) <= t
    decreases |blanks - s|
  {
    var next := s + Step(blanks, directions, s);
    if next != s {
      forall y | y in Step(blanks, directions, s) ensures y in t {
        var x, d :| x in s && d in directions && Add(x, d) in blanks && y == Add(x, d);
      }
      GrowthShrinksRest(blanks, s, next);
      ClosureIsLeast(blanks, directions, next, t);
    }
  }

  /** The legal moves of one cell, as `set(get_moves(game, move, directions))`. */
  lemma StepOfOne(blanks: set<Cell>, directions: seq<Cell>, x: Cell)
    ensures Step(blanks, directions, {x}) == set y | y in GetMoves(blanks, x, directions)
  {
    forall y | y in GetMoves(blanks, x, directions) ensures y in Step(blanks, directions, {x}) {
      var d :| d in directions && y == Add(x, d);
    }
  }

  /** `Step` distributes over union. */
  lemma StepOfUnion(blanks: set<Cell>, directions: seq<Cell>, a: set<Cell>, b: set<Cell>)
    ensures Step(blanks, directions, a + b) == Step(blanks, directions, a) + Step(blanks, directions, b)
  {
    forall y | y in Step(blanks, directions, a + b) ensures y in Step(blanks, directions, a) + Step(blanks, directions, b) {
      var x, d :| x in a + b && d in directions && Add(x, d) in blanks && y == Add(x, d);
      if x in a {
        assert y in Step(blanks, directions, a);
      } else {
        assert y in Step(blanks, directions, b);
      }
    }
  }

  /** A set is closed exactly when one step never leaves it. */
  lemma ClosedIffStep(blanks: set<Cell>, directions: seq<Cell>, s: set<Cell>)
    ensures Closed(blanks, directions, s) <==> Step(blanks, directions, s) <= s
  {
    if Step(blanks, directions, s) <= s {
      forall x, d | x in s && d in directions && Add(x, d) in blanks ensures Add(x, d) in s {
        assert Add(x, d) in Step(blanks, directions, s);
      }
    }
  }

  /** Stepping from fewer cells reaches no more. */
  lemma StepMonotone(blanks: set<Cell>, directions: seq<Cell>, a: set<Cell>, b: set<Cell>)
    requires a <= b
    ensures Step(blanks, directions, a) <= Step(blanks, directions, b)
  {
  }

  /** Without the offset `(0, 0)` no cell is one of its own moves. */
  lemma NoSelfMove(blanks: set<Cell>, directions: seq<Cell>, x: Cell)
    requires (0, 0) !in directions
    ensures x !in GetMoves(blanks, x, directions)
  {
    forall d | d in directions ensures x != Add(x, d) {
      assert d != (0, 0);
    }
  }

  /**
   * One pass of `find_connected`'s loop, on plain sets: popping `move` from
   * `queue` and queueing its unexamined `moves` keeps the queue inside
   * `reach` and covers the new cells' moves.
   */
  lemma PopMove(examined: set<Cell>, queue: set<Cell>, move: Cell, moves: set<Cell>,
                stepped: set<Cell>, reach: set<Cell>)
    requires move in queue && examined + queue <= reach
    requires stepped <= examined + queue && moves <= reach
    ensures var e, q := examined + {move}, (queue - {move}) + (moves - examined);
      e + q <= reach && stepped + moves <= e + q
  {
    var e, q := examined + {move}, (queue - {move}) + (moves - examined);
    forall x | x in stepped + moves ensures x in e + q {
      if x in moves && x !in examined {
        assert x in q;
      } else if x == move {
        assert x in e;
      }
    }
  }

  /** Without self-moves, popping a cell keeps the queue apart from the examined cells. */
  lemma PopDisjoint(examined: set<Cell>, queue: set<Cell>, move: Cell, moves: set<Cell>)
    requires move in queue && queue !! examined && move !in moves
    ensures var e, q := examined + {move}, (queue - {move}) + (moves - examined);
      q !! e && |e| == |examined| + 1
  {
    var e, q := examined + {move}, (queue - {move}) + (moves - examined);
    assert move !in examined;
    forall x | x in q ensures x !in e {
      if x in queue - {move} {
        assert x !in examined && x != move;
      } else {
        assert x in moves - examined;
      }
    }
  }

  /**
   * Popping a cell either examines a new cell of `universe` or, when it was
   * already examined, only shrinks the queue.
   */
  lemma PopShrinks(examined: set<Cell>, queue: set<Cell>, move: Cell, moves: set<Cell>,
                   stepped: set<Cell>, universe: set<Cell>)
    requires move in queue && examined + queue <= universe
    requires move in examined ==> moves <= stepped && stepped <= examined + queue
    ensures var e, q := examined + {move}, (queue - {move}) + (moves - examined);
      |universe - e| < |universe - examined| || (|universe - e| == |universe - examined| && |q| < |queue|)
  {
    if move in examined {
      assert examined + {move} == examined;
      forall x | x in moves - examined ensures x in queue - {move} {
        assert x in stepped && x != move;
      }
      assert (queue - {move}) + (moves - examined) == queue - {move};
      RemoveOne(queue, move);
    } else {
      assert universe - (examined + {move}) == (universe - examined) - {move};
      RemoveOne(universe - examined, move);
    }
  }

  /** The connected cells hold the start, lie within the blanks plus the start, and are closed under `Step`. */
  lemma ConnectedIsStepClosed(blanks: set<Cell>, directions: seq<Cell>, start: Cell)
    ensures var reach := Connected(blanks, directions, start);
      start in reach && reach <= blanks + {start} && Step(blanks, directions, reach) <= reach
  {
    ClosureIsClosed(blanks, directions, {start});
    ClosedIffStep(blanks, directions, Connected(blanks, directions, start));
  }

  /** Every set holding the start and closed under `Step` contains the connected cells. */
  lemma ConnectedIsLeastStepClosed(blanks: set<Cell>, directions: seq<Cell>, start: Cell, t: set<Cell>)
    requires start in t && Step(blanks, directions, t) <= t
    ensures Connected(blanks, directions, start) <= t
  {
    ClosedIffStep(blanks, directions, t);
    ClosureIsLeast(blanks, directions, {start}, t);
  }

  /**
   * The invariant of `find_connected`'s loop: the examined and queued cells
   * hold the start and lie within the connected cells, every move from an
   * examined cell is examined or queued, and without the offset `(0, 0)` the
   * queue is disjoint from the examined cells, each popped once.
   */
  ghost predicate SearchState(blanks: set<Cell>, directions: seq<Cell>, start: Cell, reach: set<Cell>,
                              examined: set<Cell>, queue: set<Cell>, pops: nat)
  {
    && start in examined + queue && examined + queue <= reach
    && Step(blanks, directions, examined) <= examined + queue
    && ((0, 0) !in directions ==> queue !! examined && pops == |examined|)
  }

  /** One pass of `find_connected`'s loop keeps `SearchState` and makes progress. */
  lemma PopStep(blanks: set<Cell>, directions: seq<Cell>, start: Cell, reach: set<Cell>, universe: set<Cell>,
                examined: set<Cell>, queue: set<Cell>, pops: nat, move: Cell, moves: set<Cell>)
    requires SearchState(blanks, directions, start, reach, examined, queue, pops)
    requires reach <= universe && Step(blanks, directions, reach) <= reach
    requires move in queue && moves == set y | y in GetMoves(blanks, move, directions)
    ensures var e, q := examined + {move}, (queue - {move}) + (moves - examined);
      && SearchState(blanks, directions, start, reach, e, q, pops + 1)
      && (|universe - e| < |universe - examined| || (|universe - e| == |universe - examined| && |q| < |queue|))
  {
    StepOfOne(blanks, directions, move);
    StepOfUnion(blanks, directions, examined, {move});
    StepMonotone(blanks, directions, {move}, reach);
    if move in examined {
      StepMonotone(blanks, directions, {move}, examined);
    }
    ghost var stepped := Step(blanks, directions, examined);
    PopMove(examined, queue, move, moves, stepped, reach);
    PopShrinks(examined, queue, move, moves, stepped, universe);
    if (0, 0) !in directions {
      NoSelfMove(blanks, directions, move);
      PopDisjoint(examined, queue, move, moves);
    }
  }

  /**
   * `find_connected` for the player the view belongs to: starting from the
   * player's location, pops cells from `queue` into `examined`, queueing
   * each popped cell's unexamined legal moves. The result is exactly the
   * cells connected to the location. With no zero offset no cell is popped
   * twice, so the loop runs once per examined cell.
   */
  method FindConnected(v: View, directions: seq<Cell>) returns (examined: set<Cell>, ghost pops: nat)
    requires v.ownLocation.Some?
    ensures examined == Connected(v.blanks, directions, v.ownLocation.value)
    ensures (0, 0) !in directions ==> pops == |examined|
  {
    var start := v.ownLocation.value;
    ghost var blanks := v.blanks;
    ghost var reach := Connected(blanks, directions, start);
    ConnectedIsStepClosed(blanks, directions, start);
    ghost var universe := blanks + {start};
    examined := {};
    var queue := {start};
    pops := 0;
    while queue != {}
      invariant SearchState(blanks, directions, start, reach, examined, queue, pops)
      decreases |universe - examined|, |queue|
    {
      var move :| move in queue;
      var moves := set y | y in GetMoves(v.blanks, move, directions);
      PopStep(blanks, directions, start, reach, universe, examined, queue, pops, move, moves);
      queue := (queue - {move}) + (moves - examined);
      examined := examined + {move};
      pops := pops + 1;
    }
    ConnectedIsLeastStepClosed(blanks, directions, start, examined);
  }

  /**
   * What `find_connected` returns, stated without iteration: it holds the
   * start, every other cell of it is blank, every legal move from one of
   * its cells stays in it, and every set with those properties contains it.
   */
  lemma ConnectedIsLeastClosed(blanks: set<Cell>, directions: seq<Cell>, start: Cell, t: set<Cell>)
    ensures var c := Connected(blanks, directions, start);
      && start in c && c <= blanks + {start}
      && (forall x, y :: x in c && y in GetMoves(blanks, x, directions) ==> y in c)
      && (start in t && (forall x, y :: x in t && y in GetMoves(blanks, x, directions) ==> y in t) ==> c <= t)
  {
    var c := Connected(blanks, directions, start);
    ClosureIsClosed(blanks, directions, {start});
    forall x, y | x in c && y in GetMoves(blanks, x, directions) ensures y in c {
      var d :| d in directions && y == Add(x, d);
    }
    if start in t && (forall x, y :: x in t && y in GetMoves(blanks, x, directions) ==> y in t) {
      forall x, d | x in t && d in directions && Add(x, d) in blanks ensures Add(x, d) in t {
        assert Add(x, d) in GetMoves(blanks, x, directions);
      }
      ClosureIsLeast(blanks, directions, {start}, t);
    }
  }

  // ---------------------------------------------------------------------
  // Scores. Each opens the same way: the loser scores `-inf`, then the
  // winner `inf`; the `float(...)` of an integer is that integer.

  /** The opening every score shares: the loser gets `-inf`, otherwise the winner `inf`, otherwise a finite value. */
  predicate EndValue(v: View, r: Score)
  {
    (r == NegInf <==> v.loser) && (r == PosInf <==> !v.loser && v.winner)
  }

  /** `null_score`: no knowledge beyond the end of the game. */
  function NullScore(v: View): (r: Score)
    ensures EndValue(v, r) && (r.Fin? ==> r.n == 0)
  {
    if v.loser then NegInf else if v.winner then PosInf else Fin(0)
  }

  /** `open_move_score`: the number of the player's legal moves. */
  function OpenMoveScore(v: View): (r: Score)
    ensures EndValue(v, r) && (r.Fin? ==> r.n == |v.ownMoves| >= 0)
  {
    if v.loser then NegInf else if v.winner then PosInf else Fin(|v.ownMoves|)
  }

  /** `improved_score`: own legal moves minus the opponent's. */
  function ImprovedScore(v: View): (r: Score)
    ensures EndValue(v, r) && (r.Fin? ==> r.n == |v.ownMoves| - |v.oppMoves|)
  {
    if v.loser then NegInf else if v.winner then PosInf else Fin(|v.ownMoves| - |v.oppMoves|)
  }

  /** `weighted_moves_score`: `(own - 3*opp) * filled`, with `filled` the cells that are not blank. */
  function WeightedMovesScore(v: View): (r: Score)
    ensures EndValue(v, r)
    ensures r.Fin? ==> r.n == (|v.ownMoves| - 3 * |v.oppMoves|) * (v.width * v.height - |v.blanks|)
  {
    if v.loser then NegInf
    else if v.winner then PosInf
    else
      var filled := v.width * v.height - |v.blanks|;
      Fin((|v.ownMoves| - 3 * |v.oppMoves|) * filled)
  }

  /**
   * `find_connected` fails on a player with no location (`r, c = None`),
   * so the reachability scores need both players placed once the game is
   * not over.
   */
  predicate Placed(v: View)
  {
    v.loser || v.winner || (v.ownLocation.Some? && v.oppLocation.Some?)
  }

  /** `reachable`: the cells connected to the player's location by knight moves. */
  function Reachable(v: View): set<Cell>
    requires v.ownLocation.Some?
  {
    Connected(v.blanks, KnightOffsets, v.ownLocation.value)
  }

  /** `reachable_score`: own reachable cells minus the opponent's. */
  function ReachableScore(v: View): (r: Score)
    requires Placed(v)
    ensures EndValue(v, r)
    ensures r.Fin? ==> r.n == |Reachable(v)| - |Reachable(Opponent(v))|
  {
    if v.loser then NegInf
    else if v.winner then PosInf
    else Fin(|Reachable(v)| - |Reachable(Opponent(v))|)
  }

  /**
   * `cut_off_reach_score`: the reachable cells the players do not share,
   * own minus the opponent's, plus a bonus of `width * height` when they
   * share none, negated when that difference is negative.
   */
  function CutOffReachScore(v: View): (r: Score)
    requires Placed(v)
    ensures EndValue(v, r)
  {
    if v.loser then NegInf
    else if v.winner then PosInf
    else
      var own, opp := Reachable(v), Reachable(Opponent(v));
      var common := own * opp;
      var score := |own - common| - |opp - common|;
      var bonus: int := if |common| == 0 then v.width * v.height else 0;
      Fin(score + (if score < 0 then -bonus else bonus))
  }

  /**
   * The null and improved scores are zero-sum: the opponent's score of the
   * same board is the negation.
   */
  lemma ZeroSum(v: View)
    requires Valid(v)
    ensures NullScore(Opponent(v)) == Neg(NullScore(v))
    ensures ImprovedScore(Opponent(v)) == Neg(ImprovedScore(v))
  {
    var w := Opponent(v);
    assert w.loser == v.winner && w.winner == v.loser;
    assert |w.ownMoves| - |w.oppMoves| == -(|v.ownMoves| - |v.oppMoves|);
  }

  /** Before the end of the game the improved score is the difference of the two open-move scores. */
  lemma ImprovedIsOpenDifference(v: View)
    requires !v.loser && !v.winner
    ensures OpenMoveScore(v).Fin? && OpenMoveScore(Opponent(v)).Fin? && OpenMoveScore(v).n >= 0
    ensures ImprovedScore(v) == Fin(OpenMoveScore(v).n - OpenMoveScore(Opponent(v)).n)
  {
  }

  /**
   * With some cell filled, the weighted score is positive exactly when the
   * player has more than three times the opponent's moves, and zero
   * exactly when it has three times as many.
   */
  lemma WeightedSign(v: View)
    requires !v.loser && !v.winner && |v.blanks| < v.width * v.height
    ensures Lt(Fin(0), WeightedMovesScore(v)) <==> |v.ownMoves| > 3 * |v.oppMoves|
    ensures WeightedMovesScore(v) == Fin(0) <==> |v.ownMoves| == 3 * |v.oppMoves|
  {
    var filled := v.width * v.height - |v.blanks|;
    var diff := |v.ownMoves| - 3 * |v.oppMoves|;
    ProductSign(diff, filled);
  }

  lemma ProductSign(a: int, b: int)
    requires b > 0
    ensures a * b > 0 <==> a > 0
    ensures a * b == 0 <==> a == 0
  {
    if a > 0 {
      ProductPositive(a, b);
    } else if a < 0 {
      ProductPositive(-a, b);
      assert a * b == -((-a) * b);
    }
  }

  lemma {:induction false} ProductPositive(a: int, b: int)
    requires a > 0 && b > 0
    ensures a * b > 0
    decreases a
  {
    if a > 1 {
      ProductPositive(a - 1, b);
      assert a * b == (a - 1) * b + b;
    }
  }

  /**
   * The weighting is pessimistic: on a board with no more blanks than
   * cells, the player's and the opponent's weighted scores never add up
   * to more than zero, so the two sides cannot both score positively.
   */
  lemma WeightedPessimistic(v: View)
    requires !v.loser && !v.winner && |v.blanks| <= v.width * v.height
    ensures WeightedMovesScore(v).n + WeightedMovesScore(Opponent(v)).n
      == -2 * (|v.ownMoves| + |v.oppMoves|) * (v.width * v.height - |v.blanks|)
    ensures WeightedMovesScore(v).n + WeightedMovesScore(Opponent(v)).n <= 0
  {
    var filled := v.width * v.height - |v.blanks|;
    var a, b := |v.ownMoves|, |v.oppMoves|;
    assert (a - 3 * b) * filled + (b - 3 * a) * filled == -2 * (a + b) * filled;
    assert (a + b) * filled >= 0;
  }

  /**
   * The reachable score is zero-sum, and since both reachable sets hold
   * their start and lie within the blanks and that start, it is at most the
   * number of blanks either way.
   */
  lemma ReachableBounded(v: View)
    requires Placed(v) && !v.loser && !v.winner
    ensures ReachableScore(Opponent(v)) == Neg(ReachableScore(v))
    ensures 1 <= |Reachable(v)| <= |v.blanks| + 1
    ensures -|v.blanks| <= ReachableScore(v).n <= |v.blanks|
  {
    ReachBounds(v);
    ReachBounds(Opponent(v));
  }

  lemma ReachBounds(v: View)
    requires v.ownLocation.Some?
    ensures 1 <= |Reachable(v)| <= |v.blanks| + 1
  {
    var start := v.ownLocation.value;
    ConnectedIsLeastClosed(v.blanks, KnightOffsets, start, {});
    SubsetCard({start}, Reachable(v));
    SubsetCard(Reachable(v), v.blanks + {start});
  }

  /**
   * The cut-off score is the reachable score when the players share a
   * reachable cell; when they share none it is pushed `width * height`
   * further in the direction of its sign (upwards on a tie).
   */
  lemma CutOffVsReachable(v: View)
    requires Placed(v) && !v.loser && !v.winner
    ensures var own, opp := Reachable(v), Reachable(Opponent(v));
      var d := ReachableScore(v).n;
      var area: int := v.width * v.height;
      CutOffReachScore(v) == Fin(d + (if own !! opp then (if d < 0 then -area else area) else 0))
  {
    var own, opp := Reachable(v), Reachable(Opponent(v));
    var common := own * opp;
    DifferenceCard(own, common);
    DifferenceCard(opp, common);
    var score := |own - common| - |opp - common|;
    assert score == |own| - |opp| == ReachableScore(v).n;
    if own !! opp {
      assert common == {};
    } else {
      var x :| x in own && x in opp;
      assert x in common;
    }
  }

  lemma DifferenceCard(a: set<Cell>, b: set<Cell>)
    requires b <= a
    ensures |a - b| == |a| - |b|
  {
    assert a == (a - b) + b;
  }

  /**
   * The cut-off score is zero-sum except in one case: the game is not over,
   * the reachable sets are disjoint and equally large, and the board has a
   * cell. Then both players receive the bonus `width * height`.
   */
  lemma CutOffZeroSumIff(v: View)
    requires Valid(v) && Placed(v)
    ensures CutOffReachScore(Opponent(v)) == Neg(CutOffReachScore(v)) <==>
      !(!v.loser && !v.winner && Reachable(v) !! Reachable(Opponent(v))
        && |Reachable(v)| == |Reachable(Opponent(v))| && v.width * v.height > 0)
  {
    if !v.loser && !v.winner {
      CutOffVsReachable(v);
      CutOffVsReachable(Opponent(v));
      var own, opp := Reachable(v), Reachable(Opponent(v));
      assert Reachable(Opponent(Opponent(v))) == own;
      BonusZeroSum(|own| - |opp|, if own !! opp then v.width * v.height else 0);
    }
  }

  /** The bonus, signed after the difference `d`, is zero-sum unless `d` is zero. */
  lemma BonusZeroSum(d: int, bonus: int)
    ensures var r, r' := d + (if d < 0 then -bonus else bonus), -d + (if -d < 0 then -bonus else bonus);
      r' == -r <==> !(d == 0 && bonus != 0)
  {
  }

  // ---------------------------------------------------------------------
  // GreedyPlayer

  /** Python's `<` on `(score, move)` pairs: by score, then by move. */
  predicate PairLess(a: (Score, Cell), b: (Score, Cell))
  {
    Lt(a.0, b.0) || (a.0 == b.0 && LexLess(a.1, b.1))
  }

  /**
   * Python's `max` on a non-empty list: an element is replaced only by a
   * strictly greater one. The result is an element nothing in the list
   * exceeds.
   */
  function Largest(s: seq<(Score, Cell)>): (r: (Score, Cell))
    requires |s| > 0
    ensures r in s
    ensures forall x :: x in s ==> !PairLess(r, x)
    decreases |s|
  {
    if |s| == 1 then s[0]
    else
      var m := Largest(s[..|s| - 1]);
      assert forall x :: x in s ==> x in s[..|s| - 1] || x == s[|s| - 1];
      if PairLess(m, s[|s| - 1]) then s[|s| - 1] else m
  }

  /** The player that moves to maximise its heuristic one ply ahead. */
  class GreedyPlayer<G> {
    const score: G -> Score

    constructor (score: G -> Score)
      ensures this.score == score
    {
      this.score := score;
    }

    /** The `(score, move)` pair that `get_move` compares for `move`. */
    function Entry(game: GA.Game<G>, g: G, move: Cell): (Score, Cell)
    {
      (score(game.forecast(g, move)), move)
    }

    /**
     * `get_move`: `(-1, -1)` without legal moves, otherwise the move of the
     * largest `(score, move)` pair, so that a tie in score goes to the
     * larger move.
     */
    function GetMove(game: GA.Game<G>, g: G, legalMoves: seq<Cell>): (move: Cell)
      ensures legalMoves == [] ==> move == GA.NoMove
      ensures legalMoves != [] ==> move in legalMoves &&
                                   forall m :: m in legalMoves ==> !PairLess(Entry(game, g, move), Entry(game, g, m))
    {
      if legalMoves == [] then GA.NoMove
      else
        var entries := seq(|legalMoves|, i requires 0 <= i < |legalMoves| => Entry(game, g, legalMoves[i]));
        var r := Largest(entries);
        assert forall j :: 0 <= j < |legalMoves| ==> entries[j] == Entry(game, g, legalMoves[j]) && entries[j] in entries;
        r.1
    }

    /**
     * A greedy move is worth what a depth-one minimax search finds, when
     * the score function agrees with the game's utility on every finished
     * child.
     */
    lemma GreedyIsDepthOne(game: GA.Game<G>, g: G)
      requires game.utility(g) == Fin(0) && game.legalMoves(g) != []
      requires forall m :: m in game.legalMoves(g) ==>
        game.utility(game.forecast(g, m)) == Fin(0) || score(game.forecast(g, m)) == game.utility(game.forecast(g, m))
      ensures score(game.forecast(g, GetMove(game, g, game.legalMoves(g)))) == GA.MinimaxResult(game, score, g, 1, true).0
    {
      var moves := game.legalMoves(g);
      var move := GetMove(game, g, moves);
      var s := score(game.forecast(g, move));
      GA.MinimaxNode(game, score, g, 1, true);
      var (v, best) := GA.MinimaxResult(game, score, g, 1, true);
      forall m | m in moves ensures GA.MinimaxResult(game, score, game.forecast(g, m), 0, false).0 == score(game.forecast(g, m)) {
      }
      var k :| 0 <= k < |moves| && moves[k] == move;
      assert Le(s, v);
      if best.Some? {
        var j :| 0 <= j < |moves| && best == Some(moves[j]) && GA.MinimaxResult(game, score, game.forecast(g, moves[j]), 0, false).0 == v;
        assert !PairLess(Entry(game, g, move), Entry(game, g, moves[j]));
        Order(s, v, v);
      } else {
        Order(s, v, v);
      }
    }
  }
}
