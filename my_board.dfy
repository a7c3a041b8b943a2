/**
 * The `MyBoard` state of my-board/my_board.py: a set `empty` of free cells
 * and a list `current` holding player 1's position, player 2's position
 * (`None` until placed) and then every vacated cell in the order it was
 * vacated, all in centre-offset coordinates (the centre cell is `(0, 0)`).
 */
module MyBoardModel {
  import opened Common
  import E = BoardEncoding
  import R = Rotations

  /** `KNIGHT_OFFSETS`, in the order the source lists them. */
  const KnightOffsets: seq<Cell> := [(-2, -1), (-2, 1), (-1, -2), (-1, 2), (1, -2), (1, 2), (2, -1), (2, 1)]

  /** `(r - offset, c - offset)` with `offset = dim // 2`. */
  function Centre(dim: int, r: int, c: int): Cell
  {
    (r - dim / 2, c - dim / 2)
  }

  /** The cells of a dim x dim board, shifted so that the centre is `(0, 0)`, as the constructor builds them. */
  function CentredBoard(dim: int): set<Cell>
  {
    set r: int, c: int | 0 <= r < dim && 0 <= c < dim :: Centre(dim, r, c)
  }

  /** Membership in `CentredBoard`, stated directly. */
  predicate OnCentredBoard(dim: int, c: Cell)
  {
    R.InSquare(dim / 2, c)
  }

  lemma CentredBoardMember(dim: int, c: Cell)
    requires dim > 0 && dim % 2 == 1
    ensures c in CentredBoard(dim) <==> OnCentredBoard(dim, c)
  {
    if OnCentredBoard(dim, c) {
      var r, col := c.0 + dim / 2, c.1 + dim / 2;
      assert Centre(dim, r, col) == c;
    }
  }

  /** A centred cell lands on the board when shifted down and right by `dim // 2`, as `coords_to_integer` does by default. */
  lemma CentredShifts(dim: int, c: Cell)
    requires dim > 0 && dim % 2 == 1
    ensures OnCentredBoard(dim, c) <==> E.OnBoard(dim, E.Shift(dim, E.DownRight, c))
  {
  }

  /** The cells named by `cs[from:]`, skipping `None`. */
  function Occupied(cs: seq<Option<Cell>>, from: nat): set<Cell>
  {
    set k | from <= k < |cs| && cs[k].Some? :: cs[k].value
  }

  lemma OccupiedMember(cs: seq<Option<Cell>>, from: nat, x: Cell)
    ensures x in Occupied(cs, from) <==> exists k :: from <= k < |cs| && cs[k] == Some(x)
  {
  }

  /** The present entries of a list are pairwise different. */
  predicate PresentDistinct(cs: seq<Option<Cell>>)
  {
    forall i, j :: 0 <= i < j < |cs| && cs[i].Some? ==> cs[i] != cs[j]
  }

  /**
   * The state a game played through `apply_move` keeps: every vacated entry
   * is present, every present entry is a distinct board cell that is not
   * free, and every other board cell is free.
   */
  ghost predicate Consistent(dim: int, empty: set<Cell>, current: seq<Option<Cell>>)
  {
    && |current| >= 2
    && (forall k :: 2 <= k < |current| ==> current[k].Some?)
    && (forall k :: 0 <= k < |current| && current[k].Some? ==>
          OnCentredBoard(dim, current[k].value) && current[k].value !in empty)
    && PresentDistinct(current)
    && (forall c :: c in empty ==> OnCentredBoard(dim, c))
    && (forall c :: OnCentredBoard(dim, c) ==> c in empty || Some(c) in current)
  }

  /** In a consistent state the free cells are the board minus every present entry. */
  lemma ConsistentEmpty(dim: int, empty: set<Cell>, current: seq<Option<Cell>>)
    requires dim > 0 && dim % 2 == 1 && Consistent(dim, empty, current)
    ensures empty == CentredBoard(dim) - Occupied(current, 0)
  {
    forall c ensures c in empty <==> c in CentredBoard(dim) - Occupied(current, 0) {
      CentredBoardMember(dim, c);
      OccupiedMember(current, 0, c);
    }
  }

  /** A fresh board is consistent. */
  lemma FreshConsistent(dim: int)
    requires dim > 0 && dim % 2 == 1
    ensures Consistent(dim, CentredBoard(dim), [None, None])
  {
    forall c ensures c in CentredBoard(dim) <==> OnCentredBoard(dim, c) {
      CentredBoardMember(dim, c);
    }
  }

  /** A consistent state is one `coords_to_integer` encodes with its default `down_rt` offset. */
  lemma ConsistentEncodable(dim: int, empty: set<Cell>, current: seq<Option<Cell>>)
    requires E.ValidDim(dim) && Consistent(dim, empty, current)
    ensures E.Encodable(dim, current, E.DownRight)
  {
    forall k | 0 <= k < |current| && current[k].Some?
      ensures E.OnBoard(dim, E.Shift(dim, E.DownRight, current[k].value))
    {
      CentredShifts(dim, current[k].value);
    }
    forall k | 2 <= k < |current| ensures E.CellPackable(dim, E.DownRight, current[k]) {
      E.IndexOnBoard(dim, E.Shift(dim, E.DownRight, current[k].value));
    }
  }

  // ---------------------------------------------------------------------
  // valid_moves

  /** Two cells a knight's move apart: one step along one axis and two along the other. */
  predicate KnightMove(a: Cell, b: Cell)
  {
    var dr, dc := b.0 - a.0, b.1 - a.1;
    ((dr == 1 || dr == -1) && (dc == 2 || dc == -2)) || ((dr == 2 || dr == -2) && (dc == 1 || dc == -1))
  }

  /** `[(r+dr, c+dc) for dr, dc in KNIGHT_OFFSETS]`. */
  function KnightTargets(pos: Cell): (r: seq<Cell>)
    ensures |r| == 8
  {
    seq(8, i requires 0 <= i < 8 => (pos.0 + KnightOffsets[i].0, pos.1 + KnightOffsets[i].1))
  }

  /** The offsets list exactly the knight's moves, each once. */
  lemma KnightTargetsExact(pos: Cell)
    ensures forall c :: c in KnightTargets(pos) <==> KnightMove(pos, c)
    ensures forall i, j :: 0 <= i < j < 8 ==> KnightTargets(pos)[i] != KnightTargets(pos)[j]
  {
    var t := KnightTargets(pos);
    forall c | KnightMove(pos, c) ensures c in t {
      var dr, dc := c.0 - pos.0, c.1 - pos.1;
      var i := if dr == -2 then (if dc == -1 then 0 else 1)
        else if dr == -1 then (if dc == -2 then 2 else 3)
        else if dr == 1 then (if dc == -2 then 4 else 5)
        else (if dc == -1 then 6 else 7);
      assert t[i] == c;
    }
  }

  /** `[v for v in candidates if v in empty]`. */
  function KeepFree(candidates: seq<Cell>, empty: set<Cell>): (r: seq<Cell>)
    ensures |r| <= |candidates|
    ensures forall c :: c in r <==> c in candidates && c in empty
  {
    if candidates == [] then []
    else
      var rest := KeepFree(candidates[1..], empty);
      if candidates[0] in empty then [candidates[0]] + rest else rest
  }

  /** What `valid_moves` returns: the `empty` set itself, or a list of knight's moves. */
  datatype Moves = AllFree(free: set<Cell>) | Jumps(cells: seq<Cell>)

  /** After a move: the mover's slot holds the move and the mover's old position, if any, is appended. */
  function Moved(current: seq<Option<Cell>>, move: Cell, p: int): seq<Option<Cell>>
    requires 0 <= p < 2 <= |current|
  {
    current[p := Some(move)] + (if current[p].Some? then [current[p]] else [])
  }

  /** The preconditions `apply_move` asserts, for player index p (`player - 1`). */
  predicate MoveAllowed(empty: set<Cell>, current: seq<Option<Cell>>, move: Cell, p: int)
  {
    && 0 <= p < 2 <= |current|
    && Some(move) != current[p] && Some(move) != current[1 - p]
    && move in empty
    && (current[p].Some? ==> current[p].value !in empty - {move})
  }

  /** `apply_move` keeps a consistent state consistent, and adds exactly the move to the occupied cells. */
  lemma MovePreservesConsistent(dim: int, empty: set<Cell>, current: seq<Option<Cell>>, move: Cell, p: int)
    requires Consistent(dim, empty, current) && MoveAllowed(empty, current, move, p)
    ensures Consistent(dim, empty - {move}, Moved(current, move, p))
    ensures Occupied(Moved(current, move, p), 0) == Occupied(current, 0) + {move}
  {
    var next := Moved(current, move, p);
    assert Some(move) !in current;
    forall c | OnCentredBoard(dim, c) ensures c in empty - {move} || Some(c) in next {
      if c == move {
        assert next[p] == Some(c);
      } else if c !in empty {
        var k :| 0 <= k < |current| && current[k] == Some(c);
        if k == p {
          assert next[|current|] == Some(c);
        } else {
          assert next[k] == Some(c);
        }
      }
    }
    forall x ensures x in Occupied(next, 0) <==> x in Occupied(current, 0) + {move} {
      OccupiedMember(next, 0, x);
      OccupiedMember(current, 0, x);
      if x in Occupied(current, 0) {
        var k :| 0 <= k < |current| && current[k] == Some(x);
        if k == p {
          assert next[|current|] == Some(x);
        } else {
          assert next[k] == Some(x);
        }
      }
      if x == move {
        assert next[p] == Some(x);
      }
    }
  }

  // ---------------------------------------------------------------------
  // normalise

  /** Index of the first minimum: the loop in `normalise` replaces its pick only on a strictly smaller value. */
  function FirstMin(s: seq<nat>): (m: nat)
    requires |s| > 0
    ensures m < |s|
    ensures forall j :: 0 <= j < |s| ==> s[m] <= s[j]
    ensures forall j :: 0 <= j < m ==> s[m] < s[j]
    decreases |s|
  {
    if |s| == 1 then 0
    else
      var m := FirstMin(s[..|s| - 1]);
      if s[|s| - 1] < s[m] then |s| - 1 else m
  }

  /** Extending the prefix by one element moves the first minimum only to a strictly smaller value. */
  lemma FirstMinStep(s: seq<nat>, i: nat)
    requires 0 < i < |s|
    ensures FirstMin(s[..i + 1]) == if s[i] < s[FirstMin(s[..i])] then i else FirstMin(s[..i])
  {
    assert s[..i + 1][..i] == s[..i];
  }

  /** `lowest` after the first `i` transforms: the first least encoding, its flag and its list. */
  predicate LowestSoFar(lowest: (nat, nat, seq<Option<Cell>>), encs: seq<nat>, current: seq<Option<Cell>>, i: nat)
    requires 0 < i <= |encs|
  {
    var f := FirstMin(encs[..i]);
    lowest == (encs[f], f, R.Rotated(current, f, false))
  }

  /**
   * The loop of `normalise`: encodes each transform `enum_rotations` yields
   * and keeps the first one with the smallest encoding.
   */
  method LowestRotation(dim: int, current: seq<Option<Cell>>) returns (flag: nat, rotated: seq<Option<Cell>>)
    requires E.ValidDim(dim) && AllRotationsPackable(dim, current)
    ensures flag == FirstMin(Encodings(dim, current))
    ensures rotated == R.Rotated(current, flag, false)
  {
    ghost var encs := Encodings(dim, current);
    var all := R.EnumRotations(current);
    var lowest: Option<(nat, nat, seq<Option<Cell>>)> := None;
    var i := 0;
    while i < |all|
      invariant 0 <= i <= |all|
      invariant i == 0 <==> lowest.None?
      invariant i > 0 ==> LowestSoFar(lowest.value, encs, current, i)
    {
      var encoding := E.CoordsToInteger(dim, all[i].1, E.DownRight);
      assert encoding == encs[i];
      if i > 0 {
        FirstMinStep(encs, i);
      }
      if lowest.None? || encoding < lowest.value.0 {
        lowest := Some((encoding, all[i].0, all[i].1));
      }
      i := i + 1;
    }
    assert encs[..8] == encs;
    flag, rotated := lowest.value.1, lowest.value.2;
  }

  /** Every flag's transform of the list can be encoded. */
  predicate AllRotationsPackable(dim: int, current: seq<Option<Cell>>)
  {
    forall f :: 0 <= f < 8 ==> E.Packable(dim, R.Rotated(current, f, false), E.DownRight)
  }

  /** The encoding of each of the eight transforms, in flag order. */
  function Encodings(dim: int, current: seq<Option<Cell>>): (r: seq<nat>)
    requires E.ValidDim(dim) && AllRotationsPackable(dim, current)
    ensures |r| == 8
  {
    seq(8, f requires 0 <= f < 8 => E.Packed(dim, R.Rotated(current, f, false), E.DownRight))
  }

  /**
   * The eight encodings of a transformed list are the list's own eight
   * encodings, permuted: entry `g` is the encoding under `ComposeFlag(f, g)`.
   */
  lemma EncodingsCompose(dim: int, current: seq<Option<Cell>>, f: nat)
    requires E.ValidDim(dim) && AllRotationsPackable(dim, current)
    ensures AllRotationsPackable(dim, R.Rotated(current, f, false))
    ensures forall g :: 0 <= g < 8 ==>
      Encodings(dim, R.Rotated(current, f, false))[g] == Encodings(dim, current)[R.ComposeFlag(f, g)]
  {
    forall g | 0 <= g < 8
      ensures R.ComposeFlag(f, g) < 8
      ensures R.Rotated(R.Rotated(current, f, false), g, false) == R.Rotated(current, R.ComposeFlag(f, g), false)
    {
      R.Compose(current, f, g);
    }
  }

  /** `normalise` is idempotent: on a normalised list the first least encoding is flag 0's. */
  lemma NormaliseIdempotent(dim: int, current: seq<Option<Cell>>)
    requires E.ValidDim(dim) && AllRotationsPackable(dim, current)
    ensures var normal := R.Rotated(current, FirstMin(Encodings(dim, current)), false);
      AllRotationsPackable(dim, normal) && FirstMin(Encodings(dim, normal)) == 0
  {
    var s := Encodings(dim, current);
    var m := FirstMin(s);
    EncodingsCompose(dim, current, m);
    R.ComposeZero(m);
    var t := Encodings(dim, R.Rotated(current, m, false));
    var k := FirstMin(t);
    assert t[0] == s[m];
    assert t[k] == s[R.ComposeFlag(m, k)] >= t[0];
  }

  /** Every transform of a list has the same least encoding, so `normalise` maps them all to one encoding. */
  lemma NormaliseInvariant(dim: int, current: seq<Option<Cell>>, g: nat)
    requires E.ValidDim(dim) && AllRotationsPackable(dim, current)
    ensures AllRotationsPackable(dim, R.Rotated(current, g, false))
    ensures var s, t := Encodings(dim, current), Encodings(dim, R.Rotated(current, g, false));
      t[FirstMin(t)] == s[FirstMin(s)]
  {
    EncodingsCompose(dim, current, g);
    var s, t := Encodings(dim, current), Encodings(dim, R.Rotated(current, g, false));
    var ms, mt := FirstMin(s), FirstMin(t);
    R.CancelComposes(g, ms);
    var back := R.CancelFlag(g, ms);
    assert t[mt] == s[R.ComposeFlag(g, mt)] >= s[ms];
    assert s[ms] == t[back] >= t[mt];
  }

  /** `rotate(self.empty, flag)`, kept as a set of cells. */
  function RotateSet(s: set<Cell>, flag: nat): set<Cell>
  {
    if flag == 0 then s else set c | c in s :: R.RotateCell(R.DecodeFlag(flag, false), c)
  }

  lemma RotateSetMember(s: set<Cell>, flag: nat, x: Cell)
    ensures x in RotateSet(s, flag) <==> (if flag == 0 then x else R.RotateCell(R.DecodeFlag(flag, true), x)) in s
  {
    if flag != 0 {
      var u := R.RotateCell(R.DecodeFlag(flag, true), x);
      R.ReverseInverse(flag, x);
      if x in RotateSet(s, flag) {
        var c :| c in s && R.RotateCell(R.DecodeFlag(flag, false), c) == x;
        R.CellInverse(flag, c);
      }
    }
  }

  /** Transforming a consistent state by any flag gives a consistent state. */
  lemma RotatePreservesConsistent(dim: int, empty: set<Cell>, current: seq<Option<Cell>>, flag: nat)
    requires Consistent(dim, empty, current)
    ensures Consistent(dim, RotateSet(empty, flag), R.Rotated(current, flag, false))
  {
    if flag != 0 {
      var t, u := R.DecodeFlag(flag, false), R.DecodeFlag(flag, true);
      var e2, c2 := RotateSet(empty, flag), R.Rotated(current, flag, false);
      forall k | 0 <= k < |c2| && c2[k].Some?
        ensures OnCentredBoard(dim, c2[k].value) && c2[k].value !in e2
      {
        var v := current[k].value;
        assert c2[k].value == R.RotateCell(t, v);
        R.SquareInvariant(t, dim / 2, v);
        RotateSetMember(empty, flag, R.RotateCell(t, v));
        R.CellInverse(flag, v);
      }
      forall i, j | 0 <= i < j < |c2| && c2[i].Some? ensures c2[i] != c2[j] {
        if c2[j].Some? && c2[i] == c2[j] {
          R.Injective(flag, false, current[i].value, current[j].value);
        }
      }
      forall c | c in e2 ensures OnCentredBoard(dim, c) {
        RotateSetMember(empty, flag, c);
        R.SquareInvariant(u, dim / 2, c);
      }
      forall c | OnCentredBoard(dim, c) ensures c in e2 || Some(c) in c2 {
        var pre := R.RotateCell(u, c);
        R.SquareInvariant(u, dim / 2, c);
        RotateSetMember(empty, flag, c);
        if pre !in empty {
          var k :| 0 <= k < |current| && current[k] == Some(pre);
          R.ReverseInverse(flag, c);
          assert c2[k] == Some(c);
        }
      }
    }
  }

  /** A consistent board meets `normalise`'s needs: every transform of it can be encoded. */
  lemma ConsistentRotationsPackable(dim: int, empty: set<Cell>, current: seq<Option<Cell>>)
    requires E.ValidDim(dim) && Consistent(dim, empty, current)
    ensures AllRotationsPackable(dim, current)
  {
    forall f | 0 <= f < 8 ensures E.Packable(dim, R.Rotated(current, f, false), E.DownRight) {
      RotatePreservesConsistent(dim, empty, current, f);
      ConsistentEncodable(dim, RotateSet(empty, f), R.Rotated(current, f, false));
    }
  }

  // ---------------------------------------------------------------------
  // Decoding a board from its encoding

  /** What the constructor's `assert coord in empty` demands of every decoded entry. */
  predicate DecodableAsWritten(dim: int, coords: seq<Option<Cell>>)
  {
    forall k :: 0 <= k < |coords| ==> coords[k].Some? && OnCentredBoard(dim, coords[k].value)
  }

  /** The same check with `None` players skipped and every present entry removed from `empty`. */
  predicate Decodable(dim: int, coords: seq<Option<Cell>>)
  {
    && (forall k :: 0 <= k < |coords| && coords[k].Some? ==> OnCentredBoard(dim, coords[k].value))
    && PresentDistinct(coords)
  }

  /** The decoded list's vacated cells are strictly ascending, so no two are equal. */
  lemma DecodedHistorySorted(dim: int, n: nat, t: E.Translation)
    requires dim > 0
    ensures E.HistoryPresent(E.Unpacked(dim, n, t))
    ensures forall i, j :: 2 <= i < j < |E.Unpacked(dim, n, t)| ==> E.Unpacked(dim, n, t)[i] != E.Unpacked(dim, n, t)[j]
  {
    var u := E.Unpacked(dim, n, t);
    var cells := E.BitmapCells(dim, n, E.NumCells(dim));
    E.BitmapCellsSpec(dim, n, E.NumCells(dim));
    E.ShiftAllDescending(dim, t, cells);
    var sorted := SortedFromDescending(E.ShiftAll(dim, t, cells));
    assert u == [u[0], u[1]] + E.Wrap(sorted);
    forall i, j | 2 <= i < j < |u| ensures u[i] != u[j] {
      assert LexLess(sorted[i - 2], sorted[j - 2]);
    }
  }

  /**
   * A decoded list that matches a board's list: the same players, the same
   * vacated cells (each present, none twice), perhaps in another order.
   */
  predicate Redecoded(current: seq<Option<Cell>>, u: seq<Option<Cell>>)
  {
    && |u| >= 2 && |current| >= 2
    && u[0] == current[0] && u[1] == current[1]
    && (forall k :: 2 <= k < |u| ==> u[k].Some?)
    && Occupied(u, 2) == Occupied(current, 2)
    && (forall i, j :: 2 <= i < j < |u| ==> u[i] != u[j])
  }

  /** Decoding (with `up_left`) the encoding of a consistent board gives a matching list. */
  lemma DecodedMatches(dim: int, empty: set<Cell>, current: seq<Option<Cell>>)
    requires E.ValidDim(dim) && Consistent(dim, empty, current)
    ensures E.Encodable(dim, current, E.DownRight)
    ensures Redecoded(current, E.Unpacked(dim, E.Packed(dim, current, E.DownRight), E.UpLeft))
  {
    ConsistentEncodable(dim, empty, current);
    E.DecodeSorts(dim, current, E.DownRight);
    var n := E.Packed(dim, current, E.DownRight);
    DecodedHistorySorted(dim, n, E.UpLeft);
    SameHistoryRedecoded(current, E.Unpacked(dim, n, E.UpLeft));
  }

  /** Lists with the same players and the same vacated cells, present and distinct in `u`, match. */
  lemma SameHistoryRedecoded(current: seq<Option<Cell>>, u: seq<Option<Cell>>)
    requires |u| >= 2 && |current| >= 2 && u[..2] == current[..2]
    requires E.HistoryPresent(u) && E.HistoryPresent(current)
    requires forall x :: x in E.History(u) <==> x in E.History(current)
    requires forall i, j :: 2 <= i < j < |u| ==> u[i] != u[j]
    ensures Redecoded(current, u)
  {
    assert u[0] == u[..2][0] && u[1] == u[..2][1];
    forall x ensures x in Occupied(u, 2) <==> x in Occupied(current, 2) {
      OccupiedMember(u, 2, x);
      OccupiedMember(current, 2, x);
      UnpackedHistoryMember(u, current, x);
    }
  }

  /**
   * Decoding the encoding of a consistent board, as the constructor does it,
   * keeps both players' cells in `empty`: the decoded board's free set is the
   * original one plus the players' cells, and the first `apply_move` by a
   * placed player trips `assert pos not in self.empty`.
   */
  lemma AsWrittenKeepsPlayers(dim: int, empty: set<Cell>, current: seq<Option<Cell>>)
    requires E.ValidDim(dim) && Consistent(dim, empty, current)
    requires current[0].Some? && current[1].Some?
    ensures E.Encodable(dim, current, E.DownRight)
    ensures var u := E.Unpacked(dim, E.Packed(dim, current, E.DownRight), E.UpLeft);
      && DecodableAsWritten(dim, u)
      && CentredBoard(dim) - Occupied(u, 2) == empty + {current[0].value, current[1].value}
      && forall move :: !MoveAllowed(CentredBoard(dim) - Occupied(u, 2), u, move, 0)
  {
    DecodedMatches(dim, empty, current);
    KeepsPlayers(dim, empty, current, E.Unpacked(dim, E.Packed(dim, current, E.DownRight), E.UpLeft));
  }

  /** `AsWrittenKeepsPlayers` on the decoded list, whatever produced it. */
  lemma KeepsPlayers(dim: int, empty: set<Cell>, current: seq<Option<Cell>>, u: seq<Option<Cell>>)
    requires dim > 0 && dim % 2 == 1 && Consistent(dim, empty, current) && Redecoded(current, u)
    requires current[0].Some? && current[1].Some?
    ensures DecodableAsWritten(dim, u)
    ensures CentredBoard(dim) - Occupied(u, 2) == empty + {current[0].value, current[1].value}
    ensures forall move :: !MoveAllowed(CentredBoard(dim) - Occupied(u, 2), u, move, 0)
  {
    var free := CentredBoard(dim) - Occupied(u, 2);
    forall x ensures x in free <==> x in empty + {current[0].value, current[1].value} {
      CentredBoardMember(dim, x);
      OccupiedMember(current, 2, x);
      if x == current[0].value || x == current[1].value {
        forall k | 2 <= k < |current| ensures current[k] != Some(x) {
          assert current[0] != current[k] && current[1] != current[k];
        }
      }
    }
    forall k | 0 <= k < |u| ensures u[k].Some? && OnCentredBoard(dim, u[k].value) {
      if k >= 2 {
        OccupiedMember(u, 2, u[k].value);
        OccupiedMember(current, 2, u[k].value);
      }
    }
  }

  /** The vacated cells of two lists agree as sets when their `History`s do. */
  lemma UnpackedHistoryMember(u: seq<Option<Cell>>, current: seq<Option<Cell>>, x: Cell)
    requires E.HistoryPresent(u) && E.HistoryPresent(current)
    requires forall y :: y in E.History(u) <==> y in E.History(current)
    ensures (exists k :: 2 <= k < |u| && u[k] == Some(x)) <==> (exists k :: 2 <= k < |current| && current[k] == Some(x))
  {
    var hu, hc := E.History(u), E.History(current);
    if exists k :: 2 <= k < |u| && u[k] == Some(x) {
      var k :| 2 <= k < |u| && u[k] == Some(x);
      assert hu[k - 2] == x;
      assert x in hc;
      var j :| 0 <= j < |hc| && hc[j] == x;
      assert current[j + 2] == Some(x);
    }
    if exists k :: 2 <= k < |current| && current[k] == Some(x) {
      var k :| 2 <= k < |current| && current[k] == Some(x);
      assert hc[k - 2] == x;
      assert x in hu;
      var j :| 0 <= j < |hu| && hu[j] == x;
      assert u[j + 2] == Some(x);
    }
  }

  /** A board with an unplaced player encodes to a list the constructor's first assertion rejects. */
  lemma AsWrittenRejectsUnplaced(dim: int, empty: set<Cell>, current: seq<Option<Cell>>)
    requires E.ValidDim(dim) && Consistent(dim, empty, current)
    requires current[0].None? || current[1].None?
    ensures E.Encodable(dim, current, E.DownRight)
    ensures !DecodableAsWritten(dim, E.Unpacked(dim, E.Packed(dim, current, E.DownRight), E.UpLeft))
  {
    DecodedMatches(dim, empty, current);
  }

  /**
   * With `None` players skipped and the players' cells removed too, decoding
   * the encoding of a consistent board gives back its players and its free
   * cells, and its vacated cells in sorted order.
   */
  lemma DecodeRestores(dim: int, empty: set<Cell>, current: seq<Option<Cell>>)
    requires E.ValidDim(dim) && Consistent(dim, empty, current)
    ensures E.Encodable(dim, current, E.DownRight)
    ensures var u := E.Unpacked(dim, E.Packed(dim, current, E.DownRight), E.UpLeft);
      && Decodable(dim, u)
      && u[..2] == current[..2]
      && CentredBoard(dim) - Occupied(u, 0) == empty
      && Occupied(u, 2) == Occupied(current, 2)
      && StrictlyAscending(E.History(u))
  {
    DecodedMatches(dim, empty, current);
    E.DecodeSorts(dim, current, E.DownRight);
    var u := E.Unpacked(dim, E.Packed(dim, current, E.DownRight), E.UpLeft);
    Restores(dim, empty, current, u);
    assert u[..2] == current[..2];
  }

  /** `DecodeRestores` on the decoded list, whatever produced it. */
  lemma Restores(dim: int, empty: set<Cell>, current: seq<Option<Cell>>, u: seq<Option<Cell>>)
    requires dim > 0 && dim % 2 == 1 && Consistent(dim, empty, current) && Redecoded(current, u)
    ensures Decodable(dim, u)
    ensures CentredBoard(dim) - Occupied(u, 0) == empty
  {
    forall x ensures x in Occupied(u, 0) <==> x in Occupied(current, 0) {
      OccupiedMember(u, 0, x);
      OccupiedMember(current, 0, x);
      OccupiedMember(u, 2, x);
      OccupiedMember(current, 2, x);
    }
    ConsistentEmpty(dim, empty, current);
    forall k | 0 <= k < |u| && u[k].Some? ensures OnCentredBoard(dim, u[k].value) {
      OccupiedMember(u, 0, u[k].value);
      OccupiedMember(current, 0, u[k].value);
    }
    forall i, j | 0 <= i < j < |u| && u[i].Some? ensures u[i] != u[j] {
      if j >= 2 && i < 2 {
        OccupiedMember(u, 2, u[j].value);
        OccupiedMember(current, 2, u[j].value);
        var k :| 2 <= k < |current| && current[k] == u[j];
        assert current[i] != current[k];
      }
    }
  }

  /** Decoding, with `up_left`, the `down_rt` encoding of an encodable list gives back its players and its vacated cells, sorted. */
  lemma HashDecodes(dim: int, current: seq<Option<Cell>>)
    requires E.ValidDim(dim) && E.Packable(dim, current, E.DownRight)
    ensures E.Encodable(dim, current, E.DownRight) ==>
      var u := E.Unpacked(dim, E.Packed(dim, current, E.DownRight), E.UpLeft);
      && E.HistoryPresent(u) && u[..2] == current[..2]
      && StrictlyAscending(E.History(u))
      && forall x :: x in E.History(u) <==> x in E.History(current)
  {
    if E.Encodable(dim, current, E.DownRight) {
      E.DecodeSorts(dim, current, E.DownRight);
    }
  }

  /**
   * `__hash__` tells consistent boards apart up to the order of their
   * vacated cells: equal hashes mean equal players, equal free cells and
   * the same vacated cells.
   */
  lemma HashIdentifies(b1: MyBoard, b2: MyBoard)
    requires b1.hasEncoder && b2.hasEncoder && E.ValidDim(b1.dim) && b2.dim == b1.dim
    requires Consistent(b1.dim, b1.empty, b1.current) && Consistent(b2.dim, b2.empty, b2.current)
    ensures E.Packable(b1.dim, b1.current, E.DownRight) && E.Packable(b2.dim, b2.current, E.DownRight)
    ensures b1.Hash() == b2.Hash() ==>
      b1.current[..2] == b2.current[..2] && b1.empty == b2.empty && Occupied(b1.current, 2) == Occupied(b2.current, 2)
  {
    DecodeRestores(b1.dim, b1.empty, b1.current);
    DecodeRestores(b2.dim, b2.empty, b2.current);
  }

  /** The corrected decode leaves a consistent board behind. */
  lemma DecodedConsistent(dim: int, u: seq<Option<Cell>>)
    requires dim > 0 && dim % 2 == 1 && Decodable(dim, u) && E.HistoryPresent(u)
    ensures Consistent(dim, CentredBoard(dim) - Occupied(u, 0), u)
  {
    var empty := CentredBoard(dim) - Occupied(u, 0);
    forall k | 0 <= k < |u| && u[k].Some? ensures u[k].value !in empty {
      OccupiedMember(u, 0, u[k].value);
    }
    forall c ensures c in empty ==> OnCentredBoard(dim, c) {
      CentredBoardMember(dim, c);
    }
    forall c | OnCentredBoard(dim, c) ensures c in empty || Some(c) in u {
      CentredBoardMember(dim, c);
      OccupiedMember(u, 0, c);
    }
  }

  // ---------------------------------------------------------------------
  // The class

  class MyBoard {
    var dim: int
    var offset: int
    /** Whether the instance has its `enc` attribute: `copy` does not set it. */
    var hasEncoder: bool
    var empty: set<Cell>
    var current: seq<Option<Cell>>

    /** `MyBoard()`: no attribute is set; only `copy` builds boards this way. */
    constructor Unset()
      ensures !hasEncoder
    {
      hasEncoder := false;
    }

    /** `MyBoard(dim)`: every cell free, neither player placed. */
    constructor (dim: int)
      requires E.ValidDim(dim)
      ensures this.dim == dim && offset == dim / 2 && hasEncoder
      ensures empty == CentredBoard(dim) && current == [None, None]
      ensures Consistent(dim, empty, current)
    {
      this.dim := dim;
      hasEncoder := true;
      offset := dim / 2;
      current := [None, None];
      empty := CentredBoard(dim);
      FreshConsistent(dim);
    }

    /**
     * `MyBoard(dim, board_encoding)` as written: every decoded entry must be
     * in `empty`, and only the vacated ones are removed from it.
     */
    constructor FromEncoding(dim: int, encoding: nat)
      requires E.ValidDim(dim)
      requires DecodableAsWritten(dim, E.Unpacked(dim, encoding, E.UpLeft))
      ensures this.dim == dim && offset == dim / 2 && hasEncoder
      ensures current == E.Unpacked(dim, encoding, E.UpLeft)
      ensures empty == CentredBoard(dim) - Occupied(current, 2)
    {
      this.dim := dim;
      hasEncoder := true;
      offset := dim / 2;
      var free := CentredBoard(dim);
      var coords := E.IntegerToCoords(dim, encoding, E.UpLeft);
      DecodedHistorySorted(dim, encoding, E.UpLeft);
      var i := 0;
      while i < |coords|
        invariant 0 <= i <= |coords|
        invariant free == CentredBoard(dim) - Occupied(coords[..i], 2)
      {
        CentredBoardMember(dim, coords[i].value);
        assert coords[i].value !in Occupied(coords[..i], 2) by {
          OccupiedMember(coords[..i], 2, coords[i].value);
        }
        if i >= 2 {
          free := free - {coords[i].value};
        }
        OccupiedStep(coords, i, 2);
        i := i + 1;
      }
      assert coords[..|coords|] == coords;
      current := coords;
      empty := free;
    }

    /**
     * The constructor with the evident intent: `None` players are skipped
     * and every present entry, players included, is removed from `empty`.
     */
    constructor FromEncodingFixed(dim: int, encoding: nat)
      requires E.ValidDim(dim)
      requires Decodable(dim, E.Unpacked(dim, encoding, E.UpLeft))
      ensures this.dim == dim && offset == dim / 2 && hasEncoder
      ensures current == E.Unpacked(dim, encoding, E.UpLeft)
      ensures empty == CentredBoard(dim) - Occupied(current, 0)
      ensures Consistent(dim, empty, current)
    {
      this.dim := dim;
      hasEncoder := true;
      offset := dim / 2;
      var free := CentredBoard(dim);
      var coords := E.IntegerToCoords(dim, encoding, E.UpLeft);
      var i := 0;
      while i < |coords|
        invariant 0 <= i <= |coords|
        invariant free == CentredBoard(dim) - Occupied(coords[..i], 0)
      {
        if coords[i].Some? {
          CentredBoardMember(dim, coords[i].value);
          assert coords[i].value !in Occupied(coords[..i], 0) by {
            OccupiedMember(coords[..i], 0, coords[i].value);
          }
          free := free - {coords[i].value};
        }
        OccupiedStep(coords, i, 0);
        i := i + 1;
      }
      assert coords[..|coords|] == coords;
      DecodedHistorySorted(dim, encoding, E.UpLeft);
      DecodedConsistent(dim, coords);
      current := coords;
      empty := free;
    }

    /**
     * `__hash__`: the board's encoding with the default `down_rt` offset,
     * which decoding with `up_left` turns back into the players and the
     * vacated cells, sorted.
     */
    function Hash(): (h: nat)
      reads this
      requires hasEncoder && E.ValidDim(dim) && E.Packable(dim, current, E.DownRight)
      ensures E.Encodable(dim, current, E.DownRight) ==>
        var u := E.Unpacked(dim, h, E.UpLeft);
        && E.HistoryPresent(u) && u[..2] == current[..2]
        && StrictlyAscending(E.History(u))
        && forall x :: x in E.History(u) <==> x in E.History(current)
    {
      HashDecodes(dim, current);
      E.Packed(dim, current, E.DownRight)
    }

    /** `copy`: the same dimensions, free cells and list, but no encoder. */
    method Copy() returns (b: MyBoard)
      ensures fresh(b) && !b.hasEncoder
      ensures b.dim == dim && b.offset == offset && b.empty == empty && b.current == current
    {
      b := new MyBoard.Unset();
      b.dim := dim;
      b.offset := offset;
      b.empty := empty;
      b.current := current;
    }

    /**
     * `valid_moves(player)`: all free cells while the player is unplaced,
     * otherwise the free cells a knight's move away, in offset order.
     */
    function ValidMoves(player: int): (r: Moves)
      reads this
      requires player == 1 || player == 2
      requires |current| >= 2
      ensures current[player - 1].None? ==> r == AllFree(empty)
      ensures current[player - 1].Some? ==>
        && r.Jumps? && |r.cells| <= 8
        && forall c :: c in r.cells <==> c in empty && KnightMove(current[player - 1].value, c)
    {
      var pos := current[player - 1];
      if pos.None? then AllFree(empty)
      else
        KnightTargetsExact(pos.value);
        Jumps(KeepFree(KnightTargets(pos.value), empty))
    }

    /** `apply_move(move, player)`. */
    method ApplyMove(move: Option<Cell>, player: int)
      modifies this
      requires move.Some? && (player == 1 || player == 2)
      requires MoveAllowed(empty, current, move.value, player - 1)
      ensures empty == old(empty) - {move.value}
      ensures current == Moved(old(current), move.value, player - 1)
      ensures dim == old(dim) && offset == old(offset) && hasEncoder == old(hasEncoder)
      ensures old(Consistent(dim, empty, current)) ==> Consistent(dim, empty, current)
    {
      ghost var empty0, current0 := empty, current;
      var p := player - 1;
      var pos := current[p];
      empty := empty - {move.value};
      current := current[p := move];
      if pos.Some? {
        current := current + [pos];
      }
      if Consistent(dim, empty0, current0) {
        MovePreservesConsistent(dim, empty0, current0, move.value, p);
      }
    }

    /**
     * `normalise`: encodes the eight transforms of `current`, keeps the
     * first one with the smallest encoding, and unless that is flag 0
     * transforms both `current` and `empty` by it.
     */
    method Normalise()
      modifies this
      requires hasEncoder && E.ValidDim(dim) && AllRotationsPackable(dim, current)
      ensures var f := FirstMin(Encodings(old(dim), old(current)));
        current == R.Rotated(old(current), f, false) && empty == RotateSet(old(empty), f)
      ensures dim == old(dim) && offset == old(offset) && hasEncoder == old(hasEncoder)
      ensures old(Consistent(dim, empty, current)) ==> Consistent(dim, empty, current)
    {
      var flag, rotated := LowestRotation(dim, current);
      if flag == 0 {
        return;
      }
      if Consistent(dim, empty, current) {
        RotatePreservesConsistent(dim, empty, current, flag);
      }
      current := rotated;
      empty := RotateSet(empty, flag);
    }
  }

  /** One more entry of `coords[:i+1]`: `coords[i]` joins the occupied cells from `from` on, if present. */
  lemma OccupiedStep(coords: seq<Option<Cell>>, i: nat, from: nat)
    requires i < |coords|
    ensures Occupied(coords[..i + 1], from)
      == Occupied(coords[..i], from) + (if i >= from && coords[i].Some? then {coords[i].value} else {})
  {
    var extra: set<Cell> := if i >= from && coords[i].Some? then {coords[i].value} else {};
    forall x ensures x in Occupied(coords[..i + 1], from) <==> x in Occupied(coords[..i], from) + extra {
      OccupiedMember(coords[..i + 1], from, x);
      OccupiedMember(coords[..i], from, x);
      if x in Occupied(coords[..i], from) {
        var k :| from <= k < i && coords[..i][k] == Some(x);
        assert coords[..i + 1][k] == Some(x);
      }
      if i >= from && coords[i] == Some(x) {
        assert coords[..i + 1][i] == Some(x);
      }
    }
  }
}
