/**
 * The 5 x 5 codec hard-coded in board_encoding.py: the same layout as the
 * generic codec with the constants written out (5-bit player fields masked
 * with `0b11111`, a 25-bit bitmap whose top bit is 24), and an `offset`
 * argument that defaults to the identity. Its members are proved equal to
 * the generic ones at dim 5, and the module's own asserts become lemmas.
 */
module Codec5 {
  import opened Common
  import opened Bits
  import E = BoardEncoding

  /** `create_xlate_fns(offset)`: its second function, `down_rt`; at offset 2 it takes the centred square onto the board. */
  function XlateDownRight(offset: int, p: Option<Cell>): (r: Option<Cell>)
    ensures r.None? <==> p.None?
    ensures offset == 2 && p.Some? && -2 <= p.value.0 <= 2 && -2 <= p.value.1 <= 2 ==> E.OnBoard(5, r.value)
  {
    match p
    case None => None
    case Some(c) => Some((c.0 + offset, c.1 + offset))
  }

  /** `create_xlate_fns(offset)`: its first function, `up_left`, which `down_rt` undoes. */
  function XlateUpLeft(offset: int, p: Option<Cell>): (r: Option<Cell>)
    ensures r.None? <==> p.None?
    ensures XlateDownRight(offset, r) == p
  {
    match p
    case None => None
    case Some(c) => Some((c.0 - offset, c.1 - offset))
  }

  /** `up_left` and `down_rt` undo each other, keep None, and are the codec's translations at offset `5 // 2`. */
  lemma XlateInverse(offset: int, p: Option<Cell>)
    ensures XlateDownRight(offset, XlateUpLeft(offset, p)) == p
    ensures XlateUpLeft(offset, XlateDownRight(offset, p)) == p
    ensures XlateUpLeft(offset, None) == None && XlateDownRight(offset, None) == None
    ensures XlateUpLeft(5 / 2, p) == E.Translate(5, E.UpLeft, p)
    ensures XlateDownRight(5 / 2, p) == E.Translate(5, E.DownRight, p)
  {
  }

  /** `coord_to_num`: a board cell's index lies in `0..24`. */
  function CoordToNum(c: Cell): (r: int)
    ensures E.OnBoard(5, c) ==> 0 <= r <= 24
  {
    c.0 * 5 + c.1
  }

  /** `num_to_coord`: `coord_to_num` inverts it, and an index in `0..24` names a board cell. */
  function NumToCoord(num: int): (r: Cell)
    ensures CoordToNum(r) == num
    ensures 0 <= num <= 24 ==> E.OnBoard(5, r)
  {
    (num / 5, num % 5)
  }

  /** `encode_player`: 0 for None, else the cell's index plus one. */
  function EncodePlayer(p: Option<Cell>): (r: int)
    ensures p.None? ==> r == 0
    ensures p.Some? && E.OnBoard(5, p.value) ==> 1 <= r <= 25
  {
    match p
    case None => 0
    case Some(c) => CoordToNum(c) + 1
  }

  /** `decode_player`: `number & 0b11111`, then 0 is None. */
  function DecodePlayer(number: nat): (r: Option<Cell>)
    ensures r.None? <==> number % 32 == 0
    ensures r.Some? ==> CoordToNum(r.value) == number % 32 - 1
  {
    var player := number % 32;
    if player == 0 then None else Some(NumToCoord(player - 1))
  }

  /** `1 << (24 - coord_to_num(coord))`; Python raises ValueError for a negative shift. */
  function CoordToBitmap(c: Cell): (r: nat)
    requires CoordToNum(c) <= 24
    ensures r > 0 && Bit(r, 24 - CoordToNum(c))
  {
    E.PowerBitsAll(24 - CoordToNum(c));
    Pow2(24 - CoordToNum(c))
  }

  /** `coord_to_bitmap` sets exactly one bit: the one at position `24 - coord_to_num(coord)`. */
  lemma CoordToBitmapSingleBit(c: Cell)
    requires CoordToNum(c) <= 24
    ensures forall k: nat :: Bit(CoordToBitmap(c), k) <==> k == 24 - CoordToNum(c)
  {
    E.PowerBitsAll(24 - CoordToNum(c));
  }

  /** The constants of the 5 x 5 codec are those of the generic encoder at dim 5. */
  lemma Dim5()
    ensures E.ValidDim(5) && E.NumCells(5) == 25 && E.Offset(5) == 2 && Pow2(5) == 32
  {
    assert Pow2(5) == 32 by {
      assert Pow2(1) == 2 && Pow2(2) == 4 && Pow2(3) == 8 && Pow2(4) == 16;
    }
  }

  /** The hard-coded index conversions are the generic encoder's at dim 5. */
  lemma IndexAgree(c: Cell, num: int)
    ensures CoordToNum(c) == E.CoordToNum(5, c)
    ensures NumToCoord(num) == E.NumToCoord(5, num)
  {
  }

  /** The hard-coded player fields are the generic encoder's at dim 5. */
  lemma PlayerAgree(p: Option<Cell>, number: nat)
    ensures EncodePlayer(p) == E.EncodePlayer(5, p)
    ensures DecodePlayer(number) == E.DecodePlayer(5, number)
  {
    Dim5();
    MaskMod(number, 5);
  }

  /** The hard-coded single-cell bitmap is the generic encoder's at dim 5. */
  lemma BitmapAgree(c: Cell)
    requires CoordToNum(c) <= 24
    ensures CoordToBitmap(c) == E.CoordToBitmap(5, c)
  {
    Dim5();
  }

  /** `bitmap_to_coords`: 25 iterations from index 24 down to 0. */
  method BitmapToCoords(bitmap: nat) returns (cells: seq<Cell>)
    ensures cells == E.BitmapCells(5, bitmap, 25)
  {
    Dim5();
    var b := bitmap;
    var i := 24;
    cells := [];
    while i >= 0
      invariant -1 <= i <= 24
      invariant b == Shr(bitmap, 24 - i)
      invariant cells == E.BitmapCells(5, bitmap, 24 - i)
    {
      if b % 2 == 1 {
        IndexAgree((0, 0), i);
        cells := cells + [NumToCoord(i)];
      }
      ShrSucc(bitmap, 24 - i);
      b := b / 2;
      i := i - 1;
    }
  }

  /** `coords_to_integer(coords, offset)` with offset one of identity, `up_left`, `down_rt`. */
  method CoordsToInteger(coords: seq<Option<Cell>>, t: E.Translation) returns (number: nat)
    requires E.Packable(5, coords, t)
    ensures E.ValidDim(5) && number == E.Packed(5, coords, t)
  {
    Dim5();
    FieldsAgree(coords, t);
    number := EncodePlayer(E.Translate(5, t, coords[0]));
    number := Shl(number, 5) + EncodePlayer(E.Translate(5, t, coords[1]));
    number := Shl(number, 25);
    var i := 2;
    while i < |coords|
      invariant 2 <= i <= |coords|
      invariant number == E.PackedPrefix(5, coords, t, i)
    {
      StepAgree(coords, t, i);
      var c := E.Shift(5, t, coords[i].value);
      number := Or(number, CoordToBitmap(c));
      i := i + 1;
    }
  }

  /** The player fields as this module computes them are the generic first packing step. */
  lemma FieldsAgree(coords: seq<Option<Cell>>, t: E.Translation)
    requires E.ValidDim(5) && E.Packable(5, coords, t)
    ensures 0 <= EncodePlayer(E.Translate(5, t, coords[0])) && 0 <= EncodePlayer(E.Translate(5, t, coords[1]))
    ensures Shl(Shl(EncodePlayer(E.Translate(5, t, coords[0])), 5) + EncodePlayer(E.Translate(5, t, coords[1])), 25)
      == E.PackedPrefix(5, coords, t, 2)
  {
    Dim5();
    PlayerAgree(E.Translate(5, t, coords[0]), 0);
    PlayerAgree(E.Translate(5, t, coords[1]), 0);
  }

  /** One loop step of this module's packing is one step of the generic packing. */
  lemma StepAgree(coords: seq<Option<Cell>>, t: E.Translation, i: int)
    requires E.ValidDim(5) && E.Packable(5, coords, t) && 2 <= i < |coords|
    ensures coords[i].Some? && CoordToNum(E.Shift(5, t, coords[i].value)) <= 24
    ensures Or(E.PackedPrefix(5, coords, t, i), CoordToBitmap(E.Shift(5, t, coords[i].value)))
      == E.PackedPrefix(5, coords, t, i + 1)
  {
    Dim5();
    assert E.CellPackable(5, t, coords[i]);
    BitmapAgree(E.Shift(5, t, coords[i].value));
  }

  /** `integer_to_coords(number, offset)`. */
  method IntegerToCoords(number: nat, t: E.Translation) returns (coords: seq<Option<Cell>>)
    ensures coords == E.Unpacked(5, number, t)
  {
    Dim5();
    var cells := BitmapToCoords(number);
    E.BitmapCellsSpec(5, number, 25);
    var shifted := E.ShiftAll(5, t, cells);
    var n := Shr(number, 25);
    PlayerAgree(None, n);
    var player2 := E.Translate(5, t, DecodePlayer(n));
    ShrAdd(number, 25, 5);
    n := Shr(n, 5);
    PlayerAgree(None, n);
    var player1 := E.Translate(5, t, DecodePlayer(n));
    coords := [player1, player2] + E.Wrap(SortedFromDescending(shifted));
  }

  // ---------------------------------------------------------------------
  // The module's own checks, as lemmas

  /** Every player field decodes back: all 25 cells and None. */
  lemma PlayerFieldsRoundTrip(p: Option<Cell>)
    requires p.Some? ==> E.OnBoard(5, p.value)
    ensures 1 <= EncodePlayer(p) <= 25 || p == None
    ensures DecodePlayer(EncodePlayer(p)) == p
  {
    Dim5();
    PlayerAgree(p, 0);
    E.PlayerRoundTrip(5, p);
    PlayerAgree(p, EncodePlayer(p));
  }

  /** The bitmap of one on-board cell lists exactly that cell. */
  lemma SingleCellRoundTrip(c: Cell)
    requires E.OnBoard(5, c)
    ensures CoordToNum(c) <= 24
    ensures E.BitmapCells(5, CoordToBitmap(c), 25) == [c]
  {
    Dim5();
    E.SingleCellBitmap(5, c);
    BitmapAgree(c);
  }

  /** The test list with its history sorted: `[(3,2), None] + sorted([...])`. */
  function EncTest(): seq<Option<Cell>>
  {
    [Some((3, 2)), None, Some((0, 0)), Some((0, 1)), Some((1, 2)), Some((2, 4)), Some((3, 0)), Some((4, 2))]
  }

  /** `integer_to_coords(coords_to_integer(enc_test)) == enc_test` with the identity offset. */
  lemma EncTestRoundTrip()
    ensures E.ValidDim(5)
    ensures E.Encodable(5, EncTest(), E.NoOffset)
    ensures E.Unpacked(5, E.Packed(5, EncTest(), E.NoOffset), E.NoOffset) == EncTest()
  {
    Dim5();
    EncTestShape();
    E.RoundTrip(5, EncTest(), E.NoOffset);
  }

  /** The test list is encodable and its history is in sorted order. */
  lemma EncTestShape()
    ensures E.Encodable(5, EncTest(), E.NoOffset)
    ensures StrictlyAscending(E.History(EncTest()))
  {
    EncTestHistory();
    var h := E.History(EncTest());
    forall k | 2 <= k < |EncTest()| ensures E.CellEncodable(5, E.NoOffset, EncTest()[k]) {
      assert E.OnBoard(5, h[k - 2]);
    }
  }

  /** The history of the test list, in order. */
  lemma EncTestHistory()
    ensures E.History(EncTest()) == [(0, 0), (0, 1), (1, 2), (2, 4), (3, 0), (4, 2)]
    ensures StrictlyAscending(E.History(EncTest()))
  {
    var h := E.History(EncTest());
    assert h == [(0, 0), (0, 1), (1, 2), (2, 4), (3, 0), (4, 2)];
    AscendingByNeighbours(h);
  }

  /** The list the self-test at board_encoding.py:108-127 calls `all_coords`, as written. */
  function AllCoords(): seq<Option<Cell>>
  {
    [None, None,
     Some((-2, -2)), Some((-2, -1)), Some((-2, 0)), Some((-2, 1)), Some((-2, 2)),
     Some((-1, -2)), Some((-1, -1)), Some((-1, 0)), Some((-1, 1)), Some((-1, 2)),
     Some((0, -2)), Some((0, -1)), Some((0, 0)), Some((0, 1)), Some((0, 2)),
     Some((1, -2)), Some((1, -1)), Some((1, 0)), Some((1, 1)), Some((1, 2)),
     Some((2, -2)), Some((2, -1)), Some((2, 0)), Some((2, 1)), Some((2, 2))]
  }

  /**
   * `integer_to_coords(2**25 - 1, up_left) == all_coords` and
   * `coords_to_integer(all_coords, down_rt) == 2**25 - 1`.
   */
  lemma AllOnesRoundTrip(allOnes: nat)
    requires allOnes == Pow2(25) - 1
    ensures E.ValidDim(5)
    ensures E.Unpacked(5, allOnes, E.UpLeft) == AllCoords()
    ensures E.Encodable(5, AllCoords(), E.DownRight)
    ensures E.Packed(5, AllCoords(), E.DownRight) == allOnes
  {
    Dim5();
    E.FullBoardRoundTrip(5, allOnes);
    CentredBoard5();
  }

  /** The centre-offset 5 x 5 board is the list written out as `all_coords`. */
  lemma CentredBoard5()
    ensures E.CentredFullBoard(5) == AllCoords()
  {
    Dim5();
    var cells := E.BoardCells(5);
    var centred := E.ShiftAll(5, E.UpLeft, cells);
    var all := AllCoords();
    assert |E.CentredFullBoard(5)| == |all|;
    forall k | 0 <= k < 25 ensures Some(centred[k]) == all[k + 2] {
      var row := if k < 5 then 0 else if k < 10 then 1 else if k < 15 then 2 else if k < 20 then 3 else 4;
      assert k / 5 == row && k % 5 == k - 5 * row;
      assert centred[k] == (row - 2, k - 5 * row - 2);
    }
  }

  /** `integer_to_coords((2*5 + 1 + 1) << 25, up_left) == [None, (0, -1)]`. */
  lemma PlayerTwoOnly()
    ensures E.Unpacked(5, Shl(12, 25), E.UpLeft) == [None, Some((0, -1))]
  {
    Dim5();
    assert Shl(0, 5) + 12 == 12 by {
      ShlMul(0, 5);
    }
    E.PlayersOnly(5, 0, 12, E.UpLeft);
    MaskSmall(0, 5);
    MaskSmall(12, 5);
    assert E.DecodePlayer(5, 12) == Some((2, 1));
  }
}
