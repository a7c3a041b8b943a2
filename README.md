# Isolation agent: board codec, symmetries, board state, search and heuristics

This Dafny project models the core of an agent for Isolation. Isolation is a
two-player game on a square board where each player moves like a chess
knight. Every cell a player leaves is blocked, and a player with no move
loses. The model covers five pieces of the agent:

- **Board codecs.** `BoardEncoding` is the generic one, built for an odd
  `dim`; `Codec5` is the hard-coded 5×5 one. Both pack the two player
  positions (`dim`-bit fields, 0 for "not placed") above a `dim²`-bit
  bitmap of vacated cells. Both also decode: the vacated cells come back
  in sorted order.
  - The codecs work on Python integers, so they are modelled on `nat` with
    explicit powers of two, shifts and masks (module `Bits`).
  - `coords_to_integer` and `bitmap_to_coords` are loops and are written as
    methods. Each is proved equal to a function; the round trips are
    lemmas about those functions.
- **Board symmetries.** `Rotations` is the `my-board` variant: negate, then
  swap. `RootRotations` is the root variant: swap, then negate. Each is a
  3-bit flag applied in centre-offset space, with a `reverse` mode. The
  model proves they are inverse and that the two variants relate.
- **`MyBoard`** (module `MyBoardModel`). A class with the fields `empty`
  (the free cells) and `current` (player 1, player 2, then the vacated
  cells).
  - Methods: `apply_move`, `copy` and `normalise` change them in place.
    Both constructors are modelled too.
  - Invariant: the predicate `Consistent` holds for every board reachable
    through `apply_move` and `normalise`.
- **Search** (module `GameAgent`). Minimax and fail-soft alpha-beta run over
  an abstract game: legal moves, `forecast_move`, utility, and a score
  function. Scores (module `Scores`) are integers extended with ±∞.
  - Alpha-beta returns exactly the minimax value and move at the root
    window.
  - The iterative-deepening driver returns the move of the last depth
    that finished.
- **Heuristics** (module `Heuristics`).
  - The scores of `sample_players.py` and `my_heuristics.py`. The two files
    define `get_moves`, `find_connected`, `weighted_moves_score`,
    `reachable_score` and `cut_off_reach_score` identically, so each is
    modelled once.
  - The worklist loop `find_connected`, proved to return the least set of
    cells closed under the allowed moves.
  - `GreedyPlayer`.

External parts of the game enter as parameters: the board of the
`isolation` package, the clock and the score function.
- A heuristic reads a `View` of the board: its size, the blank cells, the
  loser and winner flags, both players' legal moves and both locations.
- The search reads a `Game` record of functions.

## Model

| member | source | states |
|---|---|---|
| BoardEncoding.ValidDimExactly | my-board/board_encoding.py:25-31 | The encoder accepts exactly the odd `dim` equal to 1 or at least 5; `dim = 3` fails `dim**2 <= 2**dim - 1`. |
| BoardEncoding.CoordToNum | my-board/board_encoding.py:43-44 | For a column in `0..dim-1`, the index divides back into the cell: `index // dim` is the row and `index % dim` the column. |
| BoardEncoding.NumToCoord | my-board/board_encoding.py:46-47 | `coord_to_num(num_to_coord(n)) == n` for every integer `n`, and the column lies in `0..dim-1`. |
| BoardEncoding.DecodePlayer | my-board/board_encoding.py:59-63 | `None` exactly when the low `dim` bits are 0; otherwise the cell whose index is that field minus 1. |
| BoardEncoding.EncodePlayer | my-board/board_encoding.py:54-57 | `None` encodes as 0; an on-board cell encodes as a value in `1..dim²`. |
| BoardEncoding.IndexOnBoard | my-board/board_encoding.py:43-47 | `num_to_coord` inverts `coord_to_num` on the board; index and bit position lie in `0..dim²-1`. |
| BoardEncoding.NumOnBoard | my-board/board_encoding.py:43-47 | Every index in `0..dim²-1` names an on-board cell, and `coord_to_num` inverts `num_to_coord`. |
| BoardEncoding.IndexOrder | my-board/board_encoding.py:43-44 | On the board, linear index order is Python's tuple order, which makes `sorted` agree with descending bit order. |
| BoardEncoding.PlayerRoundTrip | my-board/board_encoding.py:54-63 | `decode_player(encode_player(p)) == p` for `None` and every on-board cell; the field fits in `dim` bits. |
| BoardEncoding.DecodePlayerOffBoard | my-board/board_encoding.py:59-63 | A field value above `dim²` (within `dim` bits) decodes to an off-board cell, with no error. |
| BoardEncoding.CoordToBitmap | my-board/board_encoding.py:65-66 | Exactly the bit at position `NUM_CELLS-1-index` is set. |
| BoardEncoding.SingleCellBitmap | my-board/board_encoding.py:65-72 | `bitmap_to_coords(coord_to_bitmap(c))` yields exactly `[c]`. |
| BoardEncoding.BitmapToCoords | my-board/board_encoding.py:68-72 | The shifting loop yields `BitmapCells`: the cells of the set bits among the low `NUM_CELLS`, by descending index. |
| BoardEncoding.BitmapCellsSpec | my-board/board_encoding.py:68-72 | A cell is yielded iff it is on the board and its bit is set; the output is strictly descending. |
| BoardEncoding.CoordsToInteger | my-board/board_encoding.py:74-80 | The OR loop returns `Packed`: player fields shifted above the bitmap, then one bit per vacated cell. |
| BoardEncoding.PackedBits | my-board/board_encoding.py:74-80 | Layout: the bits above `NUM_CELLS` are `(e1 << dim) + e2`; an on-board bitmap bit is set iff its cell is a translated vacated cell. |
| Common.SortedFromDescending | my-board/board_encoding.py:89 | `sorted` of the decoded cells, which arrive strictly descending: strictly ascending, with the same elements. |
| BoardEncoding.IntegerToCoords | my-board/board_encoding.py:82-89 | The decoder returns `Unpacked`: both players from their fields, then the bitmap's cells translated and sorted. |
| BoardEncoding.RoundTrip | my-board/board_encoding.py:74-89 | Decoding with the inverse offset returns the input whenever its vacated cells are sorted, distinct and land on the board. |
| BoardEncoding.DecodeSorts | my-board/board_encoding.py:74-89 | For any encodable input, decoding returns the same players and the same vacated cells, strictly ascending. |
| BoardEncoding.PlayersOnly | my-board/board_encoding.py:82-89 | An integer with an empty bitmap decodes to just the two decoded, translated player fields. |
| BoardEncoding.TranslateInverse | my-board/board_encoding.py:37-39 | `down_rt` undoes `up_left` and vice versa; both map `None` to `None`. |
| BoardEncoding.FullBoardRoundTrip | my-board/board_encoding.py:37-39 | With the default offsets, `2^(dim²)-1` decodes to no players plus every centred cell ascending, and that list encodes back to `2^(dim²)-1`. |
| Codec5.XlateDownRight | board_encoding.py:8-15 | `down_rt` maps `None` to `None` only, and with offset 2 takes every centred cell onto the 5×5 board. |
| Codec5.XlateUpLeft | board_encoding.py:8-15 | `up_left` maps `None` to `None` only, and `down_rt` undoes it. |
| Codec5.CoordToNum | board_encoding.py:17-18 | An on-board cell gets an index in `0..24`. |
| Codec5.NumToCoord | board_encoding.py:20-21 | `coord_to_num(num_to_coord(n)) == n`, and indices `0..24` name on-board cells. |
| Codec5.EncodePlayer | board_encoding.py:28-31 | `None` encodes as 0 and an on-board cell as a value in `1..25`. |
| Codec5.DecodePlayer | board_encoding.py:33-37 | `None` exactly when the low 5 bits are 0; otherwise the cell whose index is that field minus 1. |
| Codec5.CoordToBitmap | board_encoding.py:39-40 | The bitmap is positive and has the bit at position `24 - coord_to_num(coord)` set. |
| Codec5.CoordToBitmapSingleBit | board_encoding.py:39-40 | That bit is the only one set. |
| Codec5.XlateInverse | board_encoding.py:8-15 | The 5×5 `up_left` and `down_rt` are mutually inverse, keep `None`, and are the generic offsets at `dim = 5`. |
| Codec5.PlayerAgree | board_encoding.py:28-37 | The 5×5 player encoder and decoder are the generic ones at `dim = 5`. |
| Codec5.PlayerFieldsRoundTrip | board_encoding.py:28-37 | The 5×5 `decode_player(encode_player(p)) == p`, with values in `1..25` for cells. |
| Codec5.SingleCellRoundTrip | board_encoding.py:39-46 | A single-cell 5×5 bitmap decodes to exactly that cell. |
| Codec5.BitmapToCoords | board_encoding.py:42-46 | The 5×5 shifting loop yields the generic `BitmapCells` at `dim = 5`. |
| Codec5.CoordsToInteger | board_encoding.py:48-54 | The 5×5 OR loop returns the generic `Packed` at `dim = 5`. |
| Codec5.IntegerToCoords | board_encoding.py:56-63 | The 5×5 decoder returns the generic `Unpacked` at `dim = 5`. |
| Codec5.EncTestRoundTrip | board_encoding.py:95-105 | The sorted sample list round-trips with the identity offset. |
| Codec5.AllOnesRoundTrip | board_encoding.py:108-127 | `2^25-1` decodes with `up_left` to two `None`s plus all 25 centred cells ascending, and encodes back with `down_rt`. |
| Codec5.PlayerTwoOnly | board_encoding.py:130-137 | `12 << 25` decodes with `up_left` to `[None, (0, -1)]`. |
| Rotations.DecodeFlag | my-board/board_rotations.py:62-66 | Bits 2, 1 and 0 of the flag are `swap`, `neg_x` and `neg_y`, with the two negations exchanged in reverse mode when `swap` is set. |
| Rotations.RotateCell | my-board/board_rotations.py:68-77 | A transform keeps a cell's distance from the centre, and the all-clear transform leaves the cell alone. |
| Rotations.Rotated | my-board/board_rotations.py:55-78 | The rotated list has the input's length, with `None` exactly where the input has `None`. |
| Rotations.Rotate | my-board/board_rotations.py:55-78 | The append loop builds `Rotated`: flag 0 returns the input, otherwise negate by bits 1 and 0 and then swap by bit 2. |
| Rotations.EnumRotations | my-board/board_rotations.py:81-85 | Eight pairs in flag order; entry `f` is `(f, rotate(coords, f))`. |
| Rotations.MatchesTable | my-board/board_rotations.py:59-78 | Each flag's action on a cell is the tabulated signed swap. |
| Rotations.PointTable | my-board/board_rotations.py:89-104 | `(3, 2)` maps to the listed point under each flag 0..7, and reverse mode maps it back. |
| Rotations.Compose | my-board/board_rotations.py:55-78 | Rotating by `f` and then by `g` is rotating once by the flag `ComposeFlag(f, g)`, which is below 8: the eight transforms are closed under composition. |
| Rotations.ComposeBijective | my-board/board_rotations.py:59-76 | For a fixed first flag, distinct second flags in `0..7` give distinct composed flags, and every flag in `0..7` is reached (by `CancelFlag`). |
| Rotations.RotateInverse | my-board/board_rotations.py:59-78 | `rotate(rotate(cs, f), f, True) == cs` for every flag, `None` entries included. |
| Rotations.ReverseInverse | my-board/board_rotations.py:62-76 | Applying the reverse transform and then the forward one also returns the cell. |
| Rotations.SquareInvariant | my-board/board_rotations.py:68-76 | Every transform keeps a cell inside the centred square of any half-width, and keeps it outside when it is outside. |
| Rotations.Injective | my-board/board_rotations.py:68-76 | Distinct cells stay distinct under every transform. |
| RootRotations.RotateCell | board_rotations.py:76-90 | A transform keeps a cell's distance from the centre, and the all-clear transform leaves the cell alone. |
| RootRotations.Rotated | board_rotations.py:71-91 | The rotated list has the input's length, with `None` exactly where the input has `None`. |
| RootRotations.Rotate | board_rotations.py:71-91 | The append loop builds `Rotated`: flag 0 returns the input, otherwise swap by bit 2 and then negate. |
| RootRotations.NoSwap | board_rotations.py:76-89 | Without the swap bit, a cell becomes `((1-2nx)*x, (1-2ny)*y)`. |
| RootRotations.WithSwap | board_rotations.py:76-89 | With the swap bit, a cell becomes `((1-2nx)*y, (1-2ny)*x)`. |
| RootRotations.RotateInverse | board_rotations.py:79-102 | `rotate(rotate(cs, f), f, True) == cs` for every flag, `None` entries included. |
| RootRotations.MyBoardRelation | board_rotations.py:71-91 | The root variant's forward transform is the `my-board` variant's reverse one and vice versa; the two differ at flag 5. |
| MyBoardModel.MyBoard.Unset | my-board/my_board.py:31-33 | `MyBoard()` without a size sets no attribute; in particular it has no encoder. |
| MyBoardModel.MyBoard.constructor | my-board/my_board.py:31-57 | A fresh board has every centred cell free and `current == [None, None]`, which is consistent. |
| MyBoardModel.FreshConsistent | my-board/my_board.py:35-48 | A fresh board satisfies `Consistent`. |
| MyBoardModel.ConsistentEmpty | my-board/my_board.py:42-57 | In a consistent state the free cells are the board minus every present entry. |
| MyBoardModel.MyBoard.FromEncoding | my-board/my_board.py:47-57 | As written, decoding requires every entry to be a free board cell and removes only the vacated ones from `empty`. |
| MyBoardModel.AsWrittenKeepsPlayers | my-board/my_board.py:50-57 | Decoding a consistent board's own hash, as written, leaves both players' cells free, and the player then cannot move. |
| MyBoardModel.AsWrittenRejectsUnplaced | my-board/my_board.py:50-57 | Decoding the hash of a consistent board with an unplaced player fails `assert coord in empty` as written. |
| MyBoardModel.MyBoard.FromEncodingFixed | my-board/my_board.py:47-57 | Corrected decode: `None` entries are skipped and every present entry is removed from `empty`; the board built is consistent. |
| MyBoardModel.DecodeRestores | my-board/my_board.py:50-60 | The corrected decode of a consistent board's hash restores its free cells exactly. |
| MyBoardModel.MyBoard.Hash | my-board/my_board.py:59-60 | The hash decodes, with `up_left`, to the board's own players followed by its vacated cells in strictly ascending order. |
| MyBoardModel.HashDecodes | my-board/my_board.py:59-60 | For any encodable list, the hash's decoding has both players of the list and the same vacated cells, strictly ascending. |
| MyBoardModel.HashIdentifies | my-board/my_board.py:59-60 | Every consistent board can be hashed, and consistent boards of one size with equal hashes have the same players, vacated cells and free cells. |
| MyBoardModel.DecodedConsistent | my-board/my_board.py:50-57 | A decoded list whose present entries are distinct and on the board, with every vacated entry present, is consistent with the free cells it leaves. |
| MyBoardModel.MyBoard.Copy | my-board/my_board.py:79-85 | The copy has the same dimensions, free cells and list, and no encoder. |
| MyBoardModel.KnightTargetsExact | my-board/my_board.py:94-96 | The eight offsets are exactly the knight's moves, all distinct. |
| MyBoardModel.KeepFree | my-board/my_board.py:97 | The filtered list keeps exactly the candidates that are free. |
| MyBoardModel.MyBoard.ValidMoves | my-board/my_board.py:87-99 | Unplaced: the `empty` set itself. Placed: at most 8 cells, exactly the free cells a knight's move away. |
| MyBoardModel.MyBoard.ApplyMove | my-board/my_board.py:101-116 | Under the asserted preconditions, `empty` loses exactly the move, the mover's slot holds it, and the old position is appended if there was one; a consistent board stays consistent. |
| MyBoardModel.MovePreservesConsistent | my-board/my_board.py:101-116 | `apply_move` keeps a consistent state consistent and adds exactly the move to the occupied cells. |
| MyBoardModel.FirstMin | my-board/my_board.py:65-70 | The chosen index holds the smallest encoding and is the first such index. |
| MyBoardModel.LowestRotation | my-board/my_board.py:65-72 | The loop returns the first flag with the smallest encoding and the list rotated by it. |
| MyBoardModel.MyBoard.Normalise | my-board/my_board.py:62-76 | Both `current` and `empty` are transformed by the first flag with the smallest encoding; flag 0 changes nothing; a consistent board stays consistent. That the result is canonical is stated by `NormaliseIdempotent` and `NormaliseInvariant` below. |
| MyBoardModel.EncodingsCompose | my-board/my_board.py:62-72 | The eight encodings of a transformed list are the list's own eight encodings, permuted by composition. |
| MyBoardModel.NormaliseIdempotent | my-board/my_board.py:62-76 | Normalising a normalised list picks flag 0: every transform of it can be encoded, and flag 0 holds its first least encoding. |
| MyBoardModel.NormaliseInvariant | my-board/my_board.py:62-76 | Every transform of a list has the same least encoding, so `normalise` maps all eight to the same encoding. |
| MyBoardModel.RotatePreservesConsistent | my-board/my_board.py:62-76 | Transforming `current` and `empty` by any flag keeps a consistent state consistent. |
| MyBoardModel.ConsistentRotationsPackable | my-board/my_board.py:66-67 | Every transform of a consistent board can be encoded, so `normalise` never fails. |
| GameAgent.MinimaxResult | game_agent.py:160-187 | A finished game answers its utility with move `(-1, -1)`; otherwise depth 0 answers the score with `(-1, -1)`; otherwise the move is `None` or one of the legal moves. |
| GameAgent.CutOffTest | game_agent.py:152-158 | Non-zero utility cuts off with that utility at any depth; otherwise depth 0 cuts off with the score; otherwise no cut-off. |
| GameAgent.PickIsFirstBest | game_agent.py:166-179 | The child loop's value beats no child, `best` is `None` exactly when no child beat ±∞, and otherwise `best` is the first child reaching the value. |
| GameAgent.PickMonotone | game_agent.py:171-179 | The running value of the child loop never gets worse as more children are seen. |
| GameAgent.PickSaturated | game_agent.py:171-179 | Once the running value is +∞ (max) or -∞ (min), later children change nothing. |
| GameAgent.MinimaxNode | game_agent.py:160-179 | Without pruning, a node takes the best of its children searched one ply shallower in the other role; `best` is the first child reaching it. |
| Scores.Max | game_agent.py:184 | Python's `max(alpha, v)`: at least both arguments, and one of them. |
| Scores.Min | game_agent.py:185 | Python's `min(beta, v)`: at most both arguments, and one of them. |
| GameAgent.MaxStep | game_agent.py:177-185 | At a max node `alpha` only grows, and a child result that is fail-soft for the narrowed window keeps the node's value fail-soft. |
| GameAgent.MinStep | game_agent.py:177-185 | At a min node `beta` only shrinks, and a child result that is fail-soft for the narrowed window keeps the node's value fail-soft. |
| GameAgent.SearchChildren | game_agent.py:171-187 | The child loop ends in the minimax outcome without pruning, and in a fail-soft one with pruning (stopping once `v >= beta` or `v <= alpha`). |
| GameAgent.Search | game_agent.py:160-187 | Without pruning, the result is the minimax value and move. With pruning it is fail-soft for the window. At the root window `(-∞, ∞)` it equals the minimax value and move. |
| GameAgent.CustomPlayer.constructor | game_agent.py:74-82 | Stores depth, score and mode; `self.fn` is `minimax` exactly when the method name is `"minimax"`. |
| GameAgent.CustomPlayer.Minimax | game_agent.py:249-283 | Times out once the clock has run out; otherwise returns the minimax result. |
| GameAgent.CustomPlayer.AlphaBeta | game_agent.py:289-330 | Times out once the clock has run out; otherwise returns the pruned search from the root window, which is the minimax result. |
| GameAgent.CustomPlayer.Fn | game_agent.py:82 | Dispatches to `minimax` or `alphabeta` with the same result. |
| GameAgent.CustomPlayer.GetMove | game_agent.py:119-150 | `(-1, -1)` without legal moves. Iterative mode searches depths 1, 2, … and returns the move of the deepest search that finished before the timeout; otherwise it searches only `search_depth`. |
| GameAgent.CustomPlayer.GetLegalMove | game_agent.py:113-117 | Corrected `get_move`: `(-1, -1)` without legal moves; otherwise always a legal move, and the search's move whenever that one is legal. |
| GetMoveCounterexample.LosingGameHasNoBest | game_agent.py:166-179 | In a position whose only child is lost, every search of depth 1 or more returns `(-inf, None)`. |
| GetMoveCounterexample.AsWrittenIllegalMoves | game_agent.py:119-150 | For a depth-1 alpha-beta player with `legal_moves == [(0, 0)]`, `get_move` as written returns `None` when the only child is lost, and `(-1, -1)` when the first search times out. |
| Heuristics.NullScore | sample_players.py:8-35 | -∞ exactly when the player has lost, +∞ exactly when it has won and not lost, 0 otherwise. |
| Heuristics.OpenMoveScore | sample_players.py:38-64 | ±∞ at the end of the game as for `null_score`; otherwise the number of the player's legal moves. |
| Heuristics.ImprovedScore | sample_players.py:67-96 | ±∞ at the end of the game; otherwise own legal moves minus the opponent's. |
| Heuristics.WeightedMovesScore | my_heuristics.py:5-19 | ±∞ at the end of the game; otherwise `(own - 3*opp)` times the number of cells that are not blank. |
| Heuristics.ReachableScore | my_heuristics.py:64-72 | ±∞ at the end of the game; otherwise the size of the player's reachable set minus the opponent's. |
| Heuristics.CutOffReachScore | my_heuristics.py:75-102 | ±∞ exactly at the end of the game, as for `null_score`; its finite value is stated by Heuristics.CutOffVsReachable. |
| Heuristics.GetMoves | my_heuristics.py:35-39 | Exactly the offset cells `(r+dr, c+dc)` that are legal, at most one per offset. |
| Heuristics.FindConnected | sample_players.py:135-146 | The worklist loop returns exactly `Connected` from the player's location; with no zero offset it pops each examined cell once. |
| Heuristics.ConnectedIsLeastClosed | my_heuristics.py:42-53 | The result holds the start, lies within the blanks plus the start, is closed under `get_moves`, and is contained in every such set. |
| Heuristics.ZeroSum | sample_players.py:29-96 | On a valid view, the null and improved scores of the opponent are the negations of the player's. |
| Heuristics.ImprovedIsOpenDifference | sample_players.py:58-96 | Before the game ends, the improved score is the player's open-move score minus the opponent's, and the open-move score is non-negative. |
| Heuristics.WeightedSign | my_heuristics.py:5-19 | With some cell filled, the weighted score is positive iff `own > 3*opp`, and zero iff `own == 3*opp`. |
| Heuristics.WeightedPessimistic | sample_players.py:98-112 | The two sides' weighted scores sum to `-2*(own+opp)*filled`, which is never positive. |
| Heuristics.ReachableBounded | my_heuristics.py:64-72 | The reachable score is zero-sum; each reachable set holds 1 to `blanks+1` cells, so the score lies within `±blanks`. |
| Heuristics.CutOffVsReachable | my_heuristics.py:75-102 | The cut-off score is the reachable score when the sets overlap; when they are disjoint it moves `width*height` further in the direction of its sign, and upwards on a tie. |
| Heuristics.CutOffZeroSumIff | sample_players.py:168-195 | The cut-off score is zero-sum iff it is not the case that the game is running, the sets are disjoint and equally large, and the board is non-empty. |
| Heuristics.Largest | sample_players.py:265 | Python's `max` returns an element of the list that no element exceeds. |
| Heuristics.GreedyPlayer.constructor | sample_players.py:233-234 | Stores the score function. |
| Heuristics.GreedyPlayer.GetMove | sample_players.py:263-266 | `(-1, -1)` without legal moves; otherwise a legal move whose `(score, move)` pair no legal move beats, so ties in score go to the larger move. |
| Heuristics.GreedyPlayer.GreedyIsDepthOne | sample_players.py:228-231 | The greedy move's score is the depth-1 minimax value, when the score agrees with the utility on finished children. |

## Left out

- Display and I/O: `MyBoard.display`, `format_bitmap`, the `__main__` demos other than the assertions modelled as lemmas, and `HumanPlayer`.
- `RandomPlayer`: it depends on randomness. Its `legal moves` at sample_players.py:225 is a syntax error, so sample_players.py cannot be compiled as written, and neither can game_agent.py, which imports `improved_score` from it at game_agent.py:41. The model reads both files as if `legal_moves` were written there.
- The clock. `time_left` and `TIMER_THRESHOLD` become `clock`: the number of further entry checks in `minimax` or `alphabeta` that pass. Recursive calls never check it.
  - The `13 * TIMER_THRESHOLD` early break stops the deepening loop exactly as a timeout at the next entry would, so the countdown covers it.
  - A `time_left` that has already run out is `timeLeft = 0`.
- GameAgent.CustomPlayer.AlphaBeta: the `alpha` and `beta` arguments are accepted but unused, because game_agent.py:329-330 always starts from the root window.
- The dead code in game_agent.py: everything after the `return` in `minimax` and `alphabeta`, the private `__max_value`-style helpers, and the placeholder `custom_score`.
- `board_to_coords` (both files) and the root `enum_rotations`: they reference undefined names. The module-level test loop of board_rotations.py appears only as lemmas.
- The `isolation` package's `Board` is not part of this model. Heuristics read a `View`; `move_is_legal` is membership in the blank cells. The search reads a `Game` of legal moves, `forecast_move` and utility.
- Heuristics.ZeroSum, Heuristics.CutOffZeroSumIff: the board's agreement that `is_loser(opponent) == is_winner(player)` is assumed as the shape of `Opponent`.
- Floats: every score is an integer or ±∞; `float(...)` of an integer is that integer.
- MyBoardModel.MyBoard.Hash: Python reduces `__hash__` results modulo 2^61-1; the model returns the full encoding.
- MyBoardModel.MyBoard.Normalise: after a non-trivial transform the source's `empty` becomes a list, because `rotate` returns one. The model keeps it a set.
- MyBoardModel.MyBoard.Copy: the copy has no `enc` attribute, so `__hash__` and `normalise` on a copy raise `AttributeError`. The model records this as `hasEncoder = false` and requires it.
- Negative `search_depth` is not modelled: depths are `nat`.
- MyBoardModel.MyBoard.ValidMoves, Rotations.Rotated: the identity of the returned object is not modelled. `valid_moves` for an unplaced player returns the `self.empty` object itself (my-board/my_board.py:91-92), and `rotate` with flag 0 returns its argument list (my-board/board_rotations.py:59-60). The model returns equal values, so later mutation through an alias is not captured; nothing in the modelled code mutates such a result.
- `adjacent` (`find_connected` with the adjacent offsets) is never called. It is covered only through the `directions` parameter of Heuristics.FindConnected.
- Heuristics.ReachableBounded, Heuristics.CutOffVsReachable: the reachability scores require both players placed before the game ends. With a `None` location `find_connected` fails at `r, c = move`.
- BoardEncoding.CoordsToInteger: both player slots must be `None` or land on the board; a vacated entry needs a non-negative bit position, since `1 << -k` raises ValueError. Python accepts an off-board player without complaint: a field above `MAX_COORD` spills into player 1's field, and a negative one makes the integer negative. Every caller passes on-board players (MyBoard keeps them there under `Consistent`, and the 5×5 demos are on-board literals), so the restriction excludes no call the program makes.
- The comment at my-board/board_encoding.py:30 says the size check holds for every size but about 4.26. In fact it rejects `dim = 3` (see BoardEncoding.ValidDimExactly).
- The hash literal at my-board/my_board.py:155 is never asserted in the source and is not modelled.

## Findings

| source | as written | input that shows it | evidently intended | confidence | as-written member | corrected member |
|---|---|---|---|---|---|---|
| my-board/my_board.py:50-55 | Decoding asserts that every entry, including both players' cells, is in `empty`, but removes only the entries at index 2 and after. | Any board where both players are placed and that is decoded from its own `hash`: both players' cells stay free, and player 1's next `apply_move` fails `assert pos not in self.empty`. | Remove every present entry from `empty` and skip `None` players, so the decoded board equals the encoded one. | not executed | MyBoardModel.AsWrittenKeepsPlayers | MyBoardModel.DecodeRestores |
| my-board/my_board.py:51-52 | `assert coord in empty` runs on `None` player slots too. | A board with an unplaced player, for example the fresh board: its hash decodes to `[None, None]`, and `None in empty` fails the assertion. | Skip `None` entries. | not executed | MyBoardModel.AsWrittenRejectsUnplaced | MyBoardModel.MyBoard.FromEncodingFixed |
| game_agent.py:113-150 | The documentation promises a legal move whenever `legal_moves` is non-empty. `best` starts as `(-1, -1)` and takes the search's move, which stays `None` when no child beats the initial `-inf` under the strict `>`. | `legal_moves == [(0, 0)]` where the only child has utility `-inf`: `get_move` returns `None`. If the first search times out, it returns `(-1, -1)`. | Return a legal move whenever one exists, keeping the search's move when it is legal. | not executed | GetMoveCounterexample.AsWrittenIllegalMoves | GameAgent.CustomPlayer.GetLegalMove |
