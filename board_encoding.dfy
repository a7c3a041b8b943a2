/**
 * The bit-packed board codec built per board dimension by
 * `create_encoding_class(dim)` (my-board/board_encoding.py).
 *
 * A state `[player1, player2, vacated...]` packs into one non-negative
 * integer laid out, most significant first, as
 *   player-1 field (dim bits) | player-2 field (dim bits) | bitmap (dim*dim bits).
 * A player field holds 0 for "not placed" and `row * dim + col + 1` otherwise;
 * bitmap bit `dim*dim - 1 - (row * dim + col)` is set for each vacated cell.
 * The encoder object only closes over `dim`, so its members are functions and
 * methods taking `dim`, each requiring that construction succeeded (`ValidDim`).
 */
module BoardEncoding {
  import opened Common
  import opened Bits

  /** The two assertions of `create_encoding_class`: dim is odd and `dim**2 <= 2**dim - 1`. */
  predicate ValidDim(dim: int)
  {
    dim > 0 && dim % 2 == 1 && dim * dim <= Pow2(dim) - 1
  }

  function Offset(dim: int): int { dim / 2 }

  function NumCells(dim: int): int { dim * dim }

  /** `coord_to_num`: linear index, row-major; row and column come back as quotient and remainder. */
  function CoordToNum(dim: int, c: Cell): (r: int)
    ensures dim > 0 && 0 <= c.1 < dim ==> r / dim == c.0 && r % dim == c.1
  {
    if dim > 0 && 0 <= c.1 < dim then
      DivModUnique(dim, c.0 * dim + c.1, c.0, c.1);
      c.0 * dim + c.1
    else
      c.0 * dim + c.1
  }

  /** `num_to_coord`: Python's `//` and `%` agree with Dafny's for a positive divisor. */
  function NumToCoord(dim: int, num: int): (r: Cell)
    requires dim > 0
    ensures CoordToNum(dim, r) == num && 0 <= r.1 < dim
  {
    (num / dim, num % dim)
  }

  /** A cell of the dim x dim board in its own (top-left origin) coordinates. */
  predicate OnBoard(dim: int, c: Cell)
  {
    0 <= c.0 < dim && 0 <= c.1 < dim
  }

  /** `encode_player`: 0 for None, else the linear index plus one. */
  function EncodePlayer(dim: int, p: Option<Cell>): (r: int)
    requires dim > 0
    ensures p.None? ==> r == 0
    ensures p.Some? && OnBoard(dim, p.value) ==> 1 <= r <= NumCells(dim)
  {
    match p
    case None => 0
    case Some(c) =>
      IndexInRange(dim, c);
      CoordToNum(dim, c) + 1
  }

  /** `decode_player`: keeps only the low dim bits (`number & MAX_COORD`). */
  function DecodePlayer(dim: int, number: nat): (r: Option<Cell>)
    requires dim > 0
    ensures r.None? <==> Mask(number, dim) == 0
    ensures r.Some? ==> CoordToNum(dim, r.value) == Mask(number, dim) - 1
  {
    var player := Mask(number, dim);
    if player == 0 then None else Some(NumToCoord(dim, player - 1))
  }

  /** Position of a cell's bit in the bitmap: `NUM_CELLS - 1 - coord_to_num(coord)`. */
  function BitIndex(dim: int, c: Cell): int
  {
    NumCells(dim) - 1 - CoordToNum(dim, c)
  }

  /** `coord_to_bitmap`: a negative shift count (index past the last cell) raises ValueError. */
  function CoordToBitmap(dim: int, c: Cell): (r: nat)
    requires BitIndex(dim, c) >= 0
    ensures forall k: nat :: Bit(r, k) <==> k == BitIndex(dim, c)
  {
    PowerBitsAll(BitIndex(dim, c));
    Pow2(BitIndex(dim, c))
  }

  lemma PowerBitsAll(k: nat)
    ensures forall j: nat :: Bit(Pow2(k), j) <==> j == k
  {
    forall j: nat ensures Bit(Pow2(k), j) <==> j == k {
      PowerBits(k, j);
    }
  }

  /** The coordinate translations `no_offset`, `up_left` and `down_rt`. */
  datatype Translation = NoOffset | UpLeft | DownRight

  function Shift(dim: int, t: Translation, c: Cell): Cell
  {
    match t
    case NoOffset => c
    case UpLeft => (c.0 - Offset(dim), c.1 - Offset(dim))
    case DownRight => (c.0 + Offset(dim), c.1 + Offset(dim))
  }

  /** A translation applied to a possibly-absent coordinate: None stays None. */
  function Translate(dim: int, t: Translation, p: Option<Cell>): Option<Cell>
  {
    match p
    case None => None
    case Some(c) => Some(Shift(dim, t, c))
  }

  function Inverse(t: Translation): Translation
  {
    match t
    case NoOffset => NoOffset
    case UpLeft => DownRight
    case DownRight => UpLeft
  }

  function ShiftAll(dim: int, t: Translation, cs: seq<Cell>): (r: seq<Cell>)
    ensures |r| == |cs|
    ensures forall k :: 0 <= k < |cs| ==> r[k] == Shift(dim, t, cs[k])
  {
    seq(|cs|, k requires 0 <= k < |cs| => Shift(dim, t, cs[k]))
  }

  /** The vacated cells of a coordinate list: `coords[2:]`, each present. */
  predicate HistoryPresent(coords: seq<Option<Cell>>)
  {
    |coords| >= 2 && forall k :: 2 <= k < |coords| ==> coords[k].Some?
  }

  function History(coords: seq<Option<Cell>>): (h: seq<Cell>)
    requires HistoryPresent(coords)
    ensures |h| == |coords| - 2
    ensures forall k :: 0 <= k < |h| ==> Some(h[k]) == coords[k + 2]
  {
    seq(|coords| - 2, k requires 0 <= k < |coords| - 2 => coords[k + 2].value)
  }

  function Wrap(cs: seq<Cell>): (r: seq<Option<Cell>>)
    ensures |r| == |cs|
    ensures forall k :: 0 <= k < |cs| ==> r[k] == Some(cs[k])
  {
    seq(|cs|, k requires 0 <= k < |cs| => Some(cs[k]))
  }

  /** A player slot the encoder accepts: absent, or on the board after translation. */
  predicate PlayerPackable(dim: int, t: Translation, p: Option<Cell>)
  {
    p.Some? ==> OnBoard(dim, Shift(dim, t, p.value))
  }

  /**
   * A vacated entry `coords_to_integer` gets through: present (`offset(None)`
   * would reach `coord_to_bitmap` and fail) with a bit position that is not
   * negative (`1 << -k` raises ValueError).
   */
  predicate CellPackable(dim: int, t: Translation, p: Option<Cell>)
  {
    p.Some? && BitIndex(dim, Shift(dim, t, p.value)) >= 0
  }

  /** A vacated entry that lands on the board after translation. */
  predicate CellEncodable(dim: int, t: Translation, p: Option<Cell>)
  {
    p.Some? && OnBoard(dim, Shift(dim, t, p.value))
  }

  /**
   * What `coords_to_integer` needs of its input so that it returns (in this
   * model both player slots must also be absent or on the board).
   */
  predicate Packable(dim: int, coords: seq<Option<Cell>>, t: Translation)
  {
    && |coords| >= 2
    && PlayerPackable(dim, t, coords[0]) && PlayerPackable(dim, t, coords[1])
    && forall k :: 2 <= k < |coords| ==> CellPackable(dim, t, coords[k])
  }

  /** A packable state whose vacated cells all land on the board after translation. */
  predicate Encodable(dim: int, coords: seq<Option<Cell>>, t: Translation)
  {
    && Packable(dim, coords, t)
    && forall k :: 2 <= k < |coords| ==> CellEncodable(dim, t, coords[k])
  }

  /** Whether the bitmap bit of cell c is set (false when c has no bit position). */
  predicate BitmapHas(dim: int, number: nat, c: Cell)
  {
    BitIndex(dim, c) >= 0 && Bit(number, BitIndex(dim, c))
  }

  /** The two player fields shifted above the bitmap: `((e1 << dim) + e2) << NUM_CELLS`. */
  function PlayerFields(dim: int, p1: Option<Cell>, p2: Option<Cell>): nat
    requires ValidDim(dim)
    requires p1.Some? ==> OnBoard(dim, p1.value)
    requires p2.Some? ==> OnBoard(dim, p2.value)
  {
    Shl(Shl(EncodePlayer(dim, p1), dim) + EncodePlayer(dim, p2), NumCells(dim))
  }

  /**
   * The integer `coords_to_integer` holds after its first i - 2 loop
   * iterations: the player fields shifted into place, then one bitmap bit
   * OR-ed in per vacated cell, in list order.
   */
  function PackedPrefix(dim: int, coords: seq<Option<Cell>>, t: Translation, i: int): nat
    requires ValidDim(dim) && Packable(dim, coords, t) && 2 <= i <= |coords|
    decreases i
  {
    if i == 2 then
      PlayerFields(dim, Translate(dim, t, coords[0]), Translate(dim, t, coords[1]))
    else
      assert CellPackable(dim, t, coords[i - 1]);
      Or(PackedPrefix(dim, coords, t, i - 1), CoordToBitmap(dim, Shift(dim, t, coords[i - 1].value)))
  }

  /** The integer `coords_to_integer` returns. */
  function Packed(dim: int, coords: seq<Option<Cell>>, t: Translation): nat
    requires ValidDim(dim) && Packable(dim, coords, t)
  {
    PackedPrefix(dim, coords, t, |coords|)
  }

  /** `coords_to_integer`: packs the players, then ORs in one bit per vacated cell. */
  method CoordsToInteger(dim: int, coords: seq<Option<Cell>>, t: Translation) returns (number: nat)
    requires ValidDim(dim) && Packable(dim, coords, t)
    ensures number == Packed(dim, coords, t)
  {
    var p1 := Translate(dim, t, coords[0]);
    var p2 := Translate(dim, t, coords[1]);
    number := EncodePlayer(dim, p1);
    number := Shl(number, dim) + EncodePlayer(dim, p2);
    number := Shl(number, NumCells(dim));
    var i := 2;
    while i < |coords|
      invariant 2 <= i <= |coords|
      invariant number == PackedPrefix(dim, coords, t, i)
    {
      assert CellPackable(dim, t, coords[i]);
      number := Or(number, CoordToBitmap(dim, Shift(dim, t, coords[i].value)));
      i := i + 1;
    }
  }

  /**
   * The cells `bitmap_to_coords` yields in its first j iterations: iteration t
   * tests bit t (the low bit after t shifts) and yields the cell of index
   * `NUM_CELLS - 1 - t`.
   */
  function BitmapCells(dim: int, bitmap: nat, j: nat): seq<Cell>
    requires dim > 0 && j <= NumCells(dim)
  {
    if j == 0 then []
    else BitmapCells(dim, bitmap, j - 1)
         + (if Bit(bitmap, j - 1) then [NumToCoord(dim, NumCells(dim) - j)] else [])
  }

  /** `bitmap_to_coords`: reads the low NUM_CELLS bits, yielding cells by descending index. */
  method BitmapToCoords(dim: int, bitmap: nat) returns (cells: seq<Cell>)
    requires dim > 0
    ensures cells == BitmapCells(dim, bitmap, NumCells(dim))
  {
    var b := bitmap;
    var i := NumCells(dim) - 1;
    cells := [];
    while i >= 0
      invariant -1 <= i <= NumCells(dim) - 1
      invariant b == Shr(bitmap, NumCells(dim) - 1 - i)
      invariant cells == BitmapCells(dim, bitmap, NumCells(dim) - 1 - i)
    {
      if b % 2 == 1 {
        cells := cells + [NumToCoord(dim, i)];
      }
      ShrSucc(bitmap, NumCells(dim) - 1 - i);
      b := b / 2;
      i := i - 1;
    }
  }

  /** The list `integer_to_coords` returns: `[player1, player2] + sorted(cells)`. */
  function Unpacked(dim: int, number: nat, t: Translation): (r: seq<Option<Cell>>)
    requires dim > 0
    ensures |r| >= 2
  {
    var cells := BitmapCells(dim, number, NumCells(dim));
    BitmapCellsSpec(dim, number, NumCells(dim));
    var shifted := ShiftAll(dim, t, cells);
    var player2 := Translate(dim, t, DecodePlayer(dim, Shr(number, NumCells(dim))));
    var player1 := Translate(dim, t, DecodePlayer(dim, Shr(Shr(number, NumCells(dim)), dim)));
    [player1, player2] + Wrap(SortedFromDescending(shifted))
  }

  /** `integer_to_coords`: the bitmap's cells first, then the two player fields above it. */
  method IntegerToCoords(dim: int, number: nat, t: Translation) returns (coords: seq<Option<Cell>>)
    requires dim > 0
    ensures coords == Unpacked(dim, number, t)
  {
    var cells := BitmapToCoords(dim, number);
    BitmapCellsSpec(dim, number, NumCells(dim));
    var shifted := ShiftAll(dim, t, cells);
    var n := Shr(number, NumCells(dim));
    var player2 := Translate(dim, t, DecodePlayer(dim, n));
    n := Shr(n, dim);
    var player1 := Translate(dim, t, DecodePlayer(dim, n));
    coords := [player1, player2] + Wrap(SortedFromDescending(shifted));
  }

  // ---------------------------------------------------------------------
  // Properties

  /** Construction succeeds exactly for dim = 1 and odd dim >= 5; dim = 3 is refused. */
  lemma ValidDimExactly(dim: int)
    ensures ValidDim(dim) <==> dim % 2 == 1 && (dim == 1 || dim >= 5)
  {
    if dim >= 5 {
      SquareFits(dim);
    }
    if dim == 3 {
      assert Pow2(3) == 8;
    }
  }

  lemma {:induction false} SquareFits(d: nat)
    requires d >= 5
    ensures d * d <= Pow2(d) - 1
  {
    if d > 5 {
      SquareFits(d - 1);
      DoubleFits(d - 1);
      assert d * d == (d - 1) * (d - 1) + 2 * (d - 1) + 1;
    }
  }

  lemma {:induction false} DoubleFits(d: nat)
    requires d >= 3
    ensures 2 * d + 1 <= Pow2(d)
  {
    if d > 3 {
      DoubleFits(d - 1);
    }
  }

  /** Linear index of an on-board cell lies in [0, NUM_CELLS) and converts back. */
  lemma IndexOnBoard(dim: int, c: Cell)
    requires dim > 0 && OnBoard(dim, c)
    ensures 0 <= CoordToNum(dim, c) < NumCells(dim)
    ensures 0 <= BitIndex(dim, c) < NumCells(dim)
    ensures NumToCoord(dim, CoordToNum(dim, c)) == c
  {
    MulMono(c.0, dim - 1, dim);
    assert (dim - 1) * dim == dim * dim - dim;
    DivModUnique(dim, CoordToNum(dim, c), c.0, c.1);
  }

  lemma IndexInRange(dim: int, c: Cell)
    requires dim > 0
    ensures OnBoard(dim, c) ==> 0 <= CoordToNum(dim, c) < NumCells(dim)
  {
    if OnBoard(dim, c) {
      IndexOnBoard(dim, c);
    }
  }

  lemma NumToCoordIndex(dim: int, num: int)
    requires dim > 0
    ensures CoordToNum(dim, NumToCoord(dim, num)) == num
  {
  }

  /** An index in [0, NUM_CELLS) names an on-board cell. */
  lemma NumOnBoard(dim: int, num: int)
    requires dim > 0 && 0 <= num < NumCells(dim)
    ensures OnBoard(dim, NumToCoord(dim, num))
    ensures CoordToNum(dim, NumToCoord(dim, num)) == num
  {
    var q, r := num / dim, num % dim;
    assert num == q * dim + r;
    if q >= dim {
      MulMono(dim, q, dim);
    }
  }

  /** Row-major index order is Python's tuple order on the board. */
  lemma IndexOrder(dim: int, a: Cell, b: Cell)
    requires dim > 0 && OnBoard(dim, a) && OnBoard(dim, b)
    ensures CoordToNum(dim, a) < CoordToNum(dim, b) <==> LexLess(a, b)
  {
    if a.0 < b.0 {
      MulAtLeast(b.0 - a.0, dim);
      assert CoordToNum(dim, b) - CoordToNum(dim, a) == (b.0 - a.0) * dim + b.1 - a.1;
    } else if b.0 < a.0 {
      MulAtLeast(a.0 - b.0, dim);
      assert CoordToNum(dim, a) - CoordToNum(dim, b) == (a.0 - b.0) * dim + a.1 - b.1;
    }
  }

  /** `decode_player(encode_player(p)) == p` for None and every on-board cell. */
  lemma PlayerRoundTrip(dim: int, p: Option<Cell>)
    requires ValidDim(dim)
    requires p.Some? ==> OnBoard(dim, p.value)
    ensures 0 <= EncodePlayer(dim, p) < Pow2(dim)
    ensures DecodePlayer(dim, EncodePlayer(dim, p)) == p
  {
    MaskSmall(EncodePlayer(dim, p), dim);
    if p.Some? {
      IndexOnBoard(dim, p.value);
    }
  }

  /** A field value above NUM_CELLS still decodes, to a cell off the board: no error is raised. */
  lemma DecodePlayerOffBoard(dim: int, number: nat)
    requires ValidDim(dim) && Mask(number, dim) > NumCells(dim)
    ensures DecodePlayer(dim, number).Some?
    ensures !OnBoard(dim, DecodePlayer(dim, number).value)
  {
    var f := Mask(number, dim) - 1;
    NumToCoordIndex(dim, f);
    IndexInRange(dim, NumToCoord(dim, f));
  }

  /** A single-cell bitmap yields exactly that cell. */
  lemma SingleCellBitmap(dim: int, c: Cell)
    requires dim > 0 && OnBoard(dim, c)
    ensures 0 <= BitIndex(dim, c) < NumCells(dim)
    ensures BitmapCells(dim, CoordToBitmap(dim, c), NumCells(dim)) == [c]
  {
    IndexOnBoard(dim, c);
    SingleCellPrefix(dim, c, NumCells(dim));
  }

  lemma {:induction false} SingleCellPrefix(dim: int, c: Cell, j: nat)
    requires dim > 0 && OnBoard(dim, c) && j <= NumCells(dim)
    ensures 0 <= BitIndex(dim, c) < NumCells(dim)
    ensures BitmapCells(dim, CoordToBitmap(dim, c), j) == if j <= BitIndex(dim, c) then [] else [c]
  {
    IndexOnBoard(dim, c);
    if j > 0 {
      SingleCellPrefix(dim, c, j - 1);
    }
  }

  /**
   * The cells yielded in the first j iterations are exactly the on-board cells
   * of index at least `NUM_CELLS - j` whose bit is set, in strictly
   * descending order.
   */
  lemma {:induction false} BitmapCellsSpec(dim: int, bitmap: nat, j: nat)
    requires dim > 0 && j <= NumCells(dim)
    ensures forall c :: c in BitmapCells(dim, bitmap, j) <==>
      OnBoard(dim, c) && NumCells(dim) - j <= CoordToNum(dim, c) < NumCells(dim) && Bit(bitmap, BitIndex(dim, c))
    ensures StrictlyDescending(BitmapCells(dim, bitmap, j))
  {
    if j > 0 {
      BitmapCellsSpec(dim, bitmap, j - 1);
      BitmapCellsStep(dim, bitmap, j);
    }
  }

  lemma BitmapCellsStep(dim: int, bitmap: nat, j: nat)
    requires dim > 0 && 0 < j <= NumCells(dim)
    requires forall c :: c in BitmapCells(dim, bitmap, j - 1) <==>
      OnBoard(dim, c) && NumCells(dim) - j < CoordToNum(dim, c) < NumCells(dim) && Bit(bitmap, BitIndex(dim, c))
    requires StrictlyDescending(BitmapCells(dim, bitmap, j - 1))
    ensures forall c :: c in BitmapCells(dim, bitmap, j) <==>
      OnBoard(dim, c) && NumCells(dim) - j <= CoordToNum(dim, c) < NumCells(dim) && Bit(bitmap, BitIndex(dim, c))
    ensures StrictlyDescending(BitmapCells(dim, bitmap, j))
  {
    var prev := BitmapCells(dim, bitmap, j - 1);
    var n := NumCells(dim) - j;
    var c0 := NumToCoord(dim, n);
    var last := if Bit(bitmap, j - 1) then [c0] else [];
    assert BitmapCells(dim, bitmap, j) == prev + last;
    forall c ensures c in prev + last <==>
      OnBoard(dim, c) && n <= CoordToNum(dim, c) < NumCells(dim) && Bit(bitmap, BitIndex(dim, c))
    {
      CellAtIndex(dim, c, n);
    }
    forall d | d in prev ensures LexLess(c0, d) {
      NumOnBoard(dim, n);
      IndexOnBoard(dim, d);
      IndexOrder(dim, c0, d);
    }
  }

  /** The only on-board cell of linear index n is `num_to_coord(n)`. */
  lemma CellAtIndex(dim: int, c: Cell, n: int)
    requires dim > 0 && 0 <= n < NumCells(dim)
    ensures OnBoard(dim, c) && CoordToNum(dim, c) == n <==> c == NumToCoord(dim, n)
    ensures c == NumToCoord(dim, n) ==> BitIndex(dim, c) == NumCells(dim) - 1 - n
  {
    NumOnBoard(dim, n);
    if OnBoard(dim, c) {
      IndexOnBoard(dim, c);
    }
  }

  /** The two centre-offset translations undo each other; None maps to None. */
  lemma TranslateInverse(dim: int, t: Translation, p: Option<Cell>)
    ensures Translate(dim, Inverse(t), Translate(dim, t, p)) == p
    ensures Translate(dim, t, None) == None
  {
  }

  /** Translation keeps the relative order of cells. */
  lemma ShiftOrder(dim: int, t: Translation, a: Cell, b: Cell)
    ensures LexLess(Shift(dim, t, a), Shift(dim, t, b)) <==> LexLess(a, b)
  {
  }

  /** Shifting by t and then by its inverse (or the other way round) is the identity. */
  lemma ShiftInverse(dim: int, t: Translation, c: Cell)
    ensures Shift(dim, Inverse(t), Shift(dim, t, c)) == c
    ensures Shift(dim, t, Shift(dim, Inverse(t), c)) == c
    ensures Inverse(Inverse(t)) == t
  {
  }

  lemma ShiftAllMember(dim: int, t: Translation, cs: seq<Cell>, x: Cell)
    ensures x in ShiftAll(dim, t, cs) <==> Shift(dim, Inverse(t), x) in cs
  {
    var r := ShiftAll(dim, t, cs);
    ShiftInverse(dim, t, x);
    if x in r {
      var k :| 0 <= k < |r| && r[k] == x;
      ShiftInverse(dim, t, cs[k]);
      assert cs[k] == Shift(dim, Inverse(t), x);
    }
    if Shift(dim, Inverse(t), x) in cs {
      var k :| 0 <= k < |cs| && cs[k] == Shift(dim, Inverse(t), x);
      assert r[k] == x;
    }
  }

  lemma ShiftAllDescending(dim: int, t: Translation, cs: seq<Cell>)
    requires StrictlyDescending(cs)
    ensures StrictlyDescending(ShiftAll(dim, t, cs))
  {
    var r := ShiftAll(dim, t, cs);
    forall i, j | 0 <= i < j < |r| ensures LexLess(r[j], r[i]) {
      ShiftOrder(dim, t, cs[j], cs[i]);
    }
  }

  /**
   * The fields of a packed state: above the bitmap sit the two player
   * fields, and an on-board cell's bitmap bit is set exactly when the
   * (translated) cell is one of the vacated cells.
   */
  lemma PackedBits(dim: int, coords: seq<Option<Cell>>, t: Translation)
    requires ValidDim(dim) && Encodable(dim, coords, t)
    ensures Shr(Packed(dim, coords, t), NumCells(dim))
      == Shl(EncodePlayer(dim, Translate(dim, t, coords[0])), dim) + EncodePlayer(dim, Translate(dim, t, coords[1]))
    ensures forall c :: OnBoard(dim, c) ==>
      (BitmapHas(dim, Packed(dim, coords, t), c) <==> c in ShiftAll(dim, t, History(coords)))
  {
    PrefixFields(dim, coords, t, |coords|);
    PrefixBits(dim, coords, t, |coords|);
    assert ShiftAll(dim, t, History(coords))[..|coords| - 2] == ShiftAll(dim, t, History(coords));
  }

  lemma {:induction false} PrefixFields(dim: int, coords: seq<Option<Cell>>, t: Translation, i: int)
    requires ValidDim(dim) && Encodable(dim, coords, t) && 2 <= i <= |coords|
    ensures Shr(PackedPrefix(dim, coords, t, i), NumCells(dim))
      == Shl(EncodePlayer(dim, Translate(dim, t, coords[0])), dim) + EncodePlayer(dim, Translate(dim, t, coords[1]))
  {
    if i == 2 {
      var p1 := Translate(dim, t, coords[0]);
      var p2 := Translate(dim, t, coords[1]);
      FieldsOnlyBits(dim, Shl(EncodePlayer(dim, p1), dim) + EncodePlayer(dim, p2));
    } else {
      PrefixFields(dim, coords, t, i - 1);
      assert CellEncodable(dim, t, coords[i - 1]);
      var last := Shift(dim, t, coords[i - 1].value);
      var m := PackedPrefix(dim, coords, t, i - 1);
      assert PackedPrefix(dim, coords, t, i) == Or(m, CoordToBitmap(dim, last));
      AddCellBits(dim, m, last);
    }
  }

  lemma {:induction false} PrefixBits(dim: int, coords: seq<Option<Cell>>, t: Translation, i: int)
    requires ValidDim(dim) && Encodable(dim, coords, t) && 2 <= i <= |coords|
    ensures forall c :: OnBoard(dim, c) ==>
      (BitmapHas(dim, PackedPrefix(dim, coords, t, i), c) <==> c in ShiftAll(dim, t, History(coords))[..i - 2])
  {
    var shifted := ShiftAll(dim, t, History(coords));
    if i == 2 {
      var p1 := Translate(dim, t, coords[0]);
      var p2 := Translate(dim, t, coords[1]);
      FieldsOnlyBits(dim, Shl(EncodePlayer(dim, p1), dim) + EncodePlayer(dim, p2));
    } else {
      PrefixBits(dim, coords, t, i - 1);
      assert CellEncodable(dim, t, coords[i - 1]);
      var last := Shift(dim, t, coords[i - 1].value);
      var m := PackedPrefix(dim, coords, t, i - 1);
      assert PackedPrefix(dim, coords, t, i) == Or(m, CoordToBitmap(dim, last));
      AddCellBits(dim, m, last);
      assert shifted[..i - 2] == shifted[..i - 3] + [last];
    }
  }

  /** Above the bitmap sits what was shifted in; no cell's bit is set. */
  lemma FieldsOnlyBits(dim: int, w: nat)
    requires ValidDim(dim)
    ensures Shr(Shl(w, NumCells(dim)), NumCells(dim)) == w
    ensures forall c :: OnBoard(dim, c) ==> !BitmapHas(dim, Shl(w, NumCells(dim)), c)
  {
    ShlSplit(w, 0, NumCells(dim));
    ShlMul(w, NumCells(dim));
    forall c | OnBoard(dim, c) ensures !BitmapHas(dim, Shl(w, NumCells(dim)), c) {
      IndexOnBoard(dim, c);
      ShiftedLowBitsClear(w, NumCells(dim), BitIndex(dim, c));
    }
  }

  /** OR-ing in one cell's bit sets that cell's bit and leaves the fields above the bitmap alone. */
  lemma AddCellBits(dim: int, m: nat, last: Cell)
    requires ValidDim(dim) && OnBoard(dim, last)
    ensures BitIndex(dim, last) >= 0
    ensures Shr(Or(m, CoordToBitmap(dim, last)), NumCells(dim)) == Shr(m, NumCells(dim))
    ensures forall c :: OnBoard(dim, c) ==>
      (BitmapHas(dim, Or(m, CoordToBitmap(dim, last)), c) <==> BitmapHas(dim, m, c) || c == last)
  {
    IndexOnBoard(dim, last);
    var b := BitIndex(dim, last);
    var n := Or(m, CoordToBitmap(dim, last));
    OrPow2(m, b);
    SetBitShr(m, b, NumCells(dim));
    forall c | OnBoard(dim, c)
      ensures BitmapHas(dim, n, c) <==> BitmapHas(dim, m, c) || c == last
    {
      IndexOnBoard(dim, c);
      SetBitBits(m, b, BitIndex(dim, c));
      if BitIndex(dim, c) == b {
        assert c == last by {
          assert NumToCoord(dim, CoordToNum(dim, c)) == NumToCoord(dim, CoordToNum(dim, last));
        }
      }
    }
  }

  /**
   * The codec's round trip: decoding (with the inverse translation) the
   * integer an encodable state packs into gives the state back, provided its
   * vacated cells are listed in sorted order without repetition, as
   * `sorted` returns them.
   */
  lemma RoundTrip(dim: int, coords: seq<Option<Cell>>, t: Translation)
    requires ValidDim(dim) && Encodable(dim, coords, t)
    requires StrictlyAscending(History(coords))
    ensures Unpacked(dim, Packed(dim, coords, t), Inverse(t)) == coords
  {
    var n := Packed(dim, coords, t);
    var h := History(coords);
    PlayersRoundTrip(dim, coords, t);
    CellsRoundTrip(dim, coords, t);
    assert Unpacked(dim, n, Inverse(t)) == [coords[0], coords[1]] + Wrap(h);
    assert [coords[0], coords[1]] + Wrap(h) == coords;
  }

  lemma PlayersRoundTrip(dim: int, coords: seq<Option<Cell>>, t: Translation)
    requires ValidDim(dim) && Encodable(dim, coords, t)
    ensures Translate(dim, Inverse(t), DecodePlayer(dim, Shr(Packed(dim, coords, t), NumCells(dim)))) == coords[1]
    ensures Translate(dim, Inverse(t), DecodePlayer(dim, Shr(Shr(Packed(dim, coords, t), NumCells(dim)), dim))) == coords[0]
  {
    PackedBits(dim, coords, t);
    FieldsDecode(dim, Translate(dim, t, coords[0]), Translate(dim, t, coords[1]));
    TranslateInverse(dim, t, coords[0]);
    TranslateInverse(dim, t, coords[1]);
  }

  /** The two player fields decode back to the two players. */
  lemma FieldsDecode(dim: int, p1: Option<Cell>, p2: Option<Cell>)
    requires ValidDim(dim)
    requires p1.Some? ==> OnBoard(dim, p1.value)
    requires p2.Some? ==> OnBoard(dim, p2.value)
    ensures 0 <= EncodePlayer(dim, p1) && 0 <= EncodePlayer(dim, p2)
    ensures DecodePlayer(dim, Shl(EncodePlayer(dim, p1), dim) + EncodePlayer(dim, p2)) == p2
    ensures DecodePlayer(dim, Shr(Shl(EncodePlayer(dim, p1), dim) + EncodePlayer(dim, p2), dim)) == p1
  {
    PlayerRoundTrip(dim, p1);
    PlayerRoundTrip(dim, p2);
    var e1: nat, e2: nat := EncodePlayer(dim, p1), EncodePlayer(dim, p2);
    ShlSplit(e1, e2, dim);
    MaskSmall(e2, dim);
    assert Mask(Shl(e1, dim) + e2, dim) == Mask(e2, dim);
  }

  lemma CellsRoundTrip(dim: int, coords: seq<Option<Cell>>, t: Translation)
    requires ValidDim(dim) && Encodable(dim, coords, t)
    requires StrictlyAscending(History(coords))
    ensures StrictlyDescending(BitmapCells(dim, Packed(dim, coords, t), NumCells(dim)))
    ensures StrictlyDescending(ShiftAll(dim, Inverse(t), BitmapCells(dim, Packed(dim, coords, t), NumCells(dim))))
    ensures SortedFromDescending(ShiftAll(dim, Inverse(t), BitmapCells(dim, Packed(dim, coords, t), NumCells(dim))))
      == History(coords)
  {
    CellsMembers(dim, coords, t);
    AscendingUnique(SortedFromDescending(ShiftAll(dim, Inverse(t), BitmapCells(dim, Packed(dim, coords, t), NumCells(dim)))),
      History(coords));
  }

  /** Decoding lists exactly the vacated cells, whatever order they were vacated in. */
  lemma CellsMembers(dim: int, coords: seq<Option<Cell>>, t: Translation)
    requires ValidDim(dim) && Encodable(dim, coords, t)
    ensures StrictlyDescending(BitmapCells(dim, Packed(dim, coords, t), NumCells(dim)))
    ensures StrictlyDescending(ShiftAll(dim, Inverse(t), BitmapCells(dim, Packed(dim, coords, t), NumCells(dim))))
    ensures forall x ::
      (x in SortedFromDescending(ShiftAll(dim, Inverse(t), BitmapCells(dim, Packed(dim, coords, t), NumCells(dim))))
       <==> x in History(coords))
  {
    var N := NumCells(dim);
    var n := Packed(dim, coords, t);
    var h := History(coords);
    PackedBits(dim, coords, t);
    var cells := BitmapCells(dim, n, N);
    BitmapCellsSpec(dim, n, N);
    var shifted := ShiftAll(dim, Inverse(t), cells);
    ShiftAllDescending(dim, Inverse(t), cells);
    var sorted := SortedFromDescending(shifted);
    forall x ensures x in sorted <==> x in h {
      HistoryMember(dim, coords, t, x);
      assert x in sorted <==> x in multiset(sorted);
      ShiftAllMember(dim, Inverse(t), cells, x);
      ShiftInverse(dim, t, x);
      var y := Shift(dim, t, x);
      if OnBoard(dim, y) {
        IndexOnBoard(dim, y);
      }
    }
  }

  /**
   * Decoding an encodable state in general: the players come back, and the
   * vacated cells come back as `sorted` would list them — strictly ascending,
   * with exactly the same members.
   */
  lemma DecodeSorts(dim: int, coords: seq<Option<Cell>>, t: Translation)
    requires ValidDim(dim) && Encodable(dim, coords, t)
    ensures var u := Unpacked(dim, Packed(dim, coords, t), Inverse(t));
      && HistoryPresent(u)
      && u[..2] == coords[..2]
      && StrictlyAscending(History(u))
      && forall x :: x in History(u) <==> x in History(coords)
  {
    var n := Packed(dim, coords, t);
    CellsMembers(dim, coords, t);
    var shifted := ShiftAll(dim, Inverse(t), BitmapCells(dim, n, NumCells(dim)));
    assert StrictlyDescending(shifted);
    var sorted := SortedFromDescending(shifted);
    PlayersRoundTrip(dim, coords, t);
    var u := Unpacked(dim, n, Inverse(t));
    assert u == [coords[0], coords[1]] + Wrap(sorted);
    WrapHistory(coords[0], coords[1], sorted);
    assert History(u) == sorted;
    assert u[..2] == [coords[0], coords[1]] == coords[..2];
  }

  lemma WrapHistory(p1: Option<Cell>, p2: Option<Cell>, cs: seq<Cell>)
    ensures HistoryPresent([p1, p2] + Wrap(cs)) && History([p1, p2] + Wrap(cs)) == cs
    ensures ([p1, p2] + Wrap(cs))[..2] == [p1, p2]
  {
  }

  /** A cell is vacated exactly when its translation is on the board and its bit is set. */
  lemma HistoryMember(dim: int, coords: seq<Option<Cell>>, t: Translation, x: Cell)
    requires ValidDim(dim) && Encodable(dim, coords, t)
    requires forall c :: OnBoard(dim, c) ==>
      (BitmapHas(dim, Packed(dim, coords, t), c) <==> c in ShiftAll(dim, t, History(coords)))
    ensures x in History(coords) <==>
      OnBoard(dim, Shift(dim, t, x)) && BitmapHas(dim, Packed(dim, coords, t), Shift(dim, t, x))
  {
    var h := History(coords);
    var y := Shift(dim, t, x);
    ShiftInverse(dim, t, x);
    ShiftAllMember(dim, t, h, y);
    if x in h {
      var k :| 0 <= k < |h| && h[k] == x;
      assert OnBoard(dim, Shift(dim, t, coords[k + 2].value));
    }
  }

  /** Every cell of the board, in row-major (linear index) order. */
  function BoardCells(dim: int): (r: seq<Cell>)
    requires dim > 0
    ensures |r| == NumCells(dim)
  {
    seq(NumCells(dim), i requires 0 <= i < NumCells(dim) => NumToCoord(dim, i))
  }

  /** Row-major order is sorted order, and every on-board cell occurs. */
  lemma BoardCellsSorted(dim: int)
    requires dim > 0
    ensures StrictlyAscending(BoardCells(dim))
    ensures forall c :: c in BoardCells(dim) <==> OnBoard(dim, c)
  {
    var b := BoardCells(dim);
    forall i, j | 0 <= i < j < |b| ensures LexLess(b[i], b[j]) {
      NumOnBoard(dim, i);
      NumOnBoard(dim, j);
      IndexOrder(dim, b[i], b[j]);
    }
    forall c ensures c in b <==> OnBoard(dim, c) {
      if c in b {
        var i :| 0 <= i < |b| && b[i] == c;
        NumOnBoard(dim, i);
      }
      if OnBoard(dim, c) {
        IndexOnBoard(dim, c);
        assert b[CoordToNum(dim, c)] == c;
      }
    }
  }

  /**
   * A state with neither player placed and every cell vacated packs to
   * `2 ** NUM_CELLS - 1`: all bitmap bits set, both player fields zero.
   */
  lemma FullBoardPacks(dim: int, coords: seq<Option<Cell>>, t: Translation)
    requires ValidDim(dim) && Encodable(dim, coords, t)
    requires coords[0] == None && coords[1] == None
    requires forall c :: OnBoard(dim, c) ==> c in ShiftAll(dim, t, History(coords))
    ensures Packed(dim, coords, t) == Pow2(NumCells(dim)) - 1
  {
    var N := NumCells(dim);
    var n := Packed(dim, coords, t);
    PackedBits(dim, coords, t);
    ShlMul(0, dim);
    assert Shr(n, N) == 0;
    ShrZeroBound(n, N);
    forall k | 0 <= k < N ensures Bit(n, k) <==> Bit(Pow2(N) - 1, k) {
      AllOnesBits(N, k);
      var c := NumToCoord(dim, N - 1 - k);
      NumOnBoard(dim, N - 1 - k);
      assert BitmapHas(dim, n, c);
    }
    BitsDetermine(n, Pow2(N) - 1, N);
  }

  /**
   * The centre-offset board: neither player placed, then every cell of the
   * board shifted up and left by `dim // 2`, in sorted order.
   */
  function CentredFullBoard(dim: int): (r: seq<Option<Cell>>)
    requires dim > 0
  {
    [None, None] + Wrap(ShiftAll(dim, UpLeft, BoardCells(dim)))
  }

  /**
   * With the default offsets, `2 ** NUM_CELLS - 1` decodes to the centred full
   * board and that list encodes back to `2 ** NUM_CELLS - 1`.
   */
  lemma FullBoardRoundTrip(dim: int, allOnes: nat)
    requires ValidDim(dim) && allOnes == Pow2(NumCells(dim)) - 1
    ensures Encodable(dim, CentredFullBoard(dim), DownRight)
    ensures Packed(dim, CentredFullBoard(dim), DownRight) == allOnes
    ensures Unpacked(dim, allOnes, UpLeft) == CentredFullBoard(dim)
  {
    var coords := CentredFullBoard(dim);
    CentredFullBoardShape(dim);
    FullBoardPacks(dim, coords, DownRight);
    RoundTrip(dim, coords, DownRight);
  }

  lemma CentredFullBoardShape(dim: int)
    requires ValidDim(dim)
    ensures Encodable(dim, CentredFullBoard(dim), DownRight)
    ensures StrictlyAscending(History(CentredFullBoard(dim)))
    ensures CentredFullBoard(dim)[0] == None && CentredFullBoard(dim)[1] == None
    ensures forall c :: OnBoard(dim, c) ==> c in ShiftAll(dim, DownRight, History(CentredFullBoard(dim)))
  {
    var cells := BoardCells(dim);
    var centred := ShiftAll(dim, UpLeft, cells);
    CentredHistory(dim);
    CentredEncodable(dim);
    BoardCellsSorted(dim);
    ShiftAllAscending(dim, UpLeft, cells);
    CentredCovers(dim);
  }

  /** The vacated part of the centred full board is the shifted board cells. */
  lemma CentredHistory(dim: int)
    requires dim > 0
    ensures HistoryPresent(CentredFullBoard(dim))
    ensures History(CentredFullBoard(dim)) == ShiftAll(dim, UpLeft, BoardCells(dim))
    ensures CentredFullBoard(dim)[0] == None && CentredFullBoard(dim)[1] == None
  {
    WrapHistory(None, None, ShiftAll(dim, UpLeft, BoardCells(dim)));
  }

  /** Every entry of the centred full board lands on the board after `down_rt`. */
  lemma CentredEncodable(dim: int)
    requires ValidDim(dim)
    ensures Encodable(dim, CentredFullBoard(dim), DownRight)
  {
    var coords := CentredFullBoard(dim);
    var cells := BoardCells(dim);
    var centred := ShiftAll(dim, UpLeft, cells);
    BoardCellsSorted(dim);
    forall k | 2 <= k < |coords|
      ensures OnBoard(dim, Shift(dim, DownRight, coords[k].value))
      ensures BitIndex(dim, Shift(dim, DownRight, coords[k].value)) >= 0
    {
      var c := cells[k - 2];
      assert coords[k] == Some(centred[k - 2]) && centred[k - 2] == Shift(dim, UpLeft, c);
      ShiftInverse(dim, DownRight, c);
      assert c in cells;
      IndexOnBoard(dim, c);
    }
  }

  lemma CentredCovers(dim: int)
    requires dim > 0
    ensures forall c :: OnBoard(dim, c) ==> c in ShiftAll(dim, DownRight, ShiftAll(dim, UpLeft, BoardCells(dim)))
  {
    var cells := BoardCells(dim);
    var centred := ShiftAll(dim, UpLeft, cells);
    BoardCellsSorted(dim);
    forall c | OnBoard(dim, c) ensures c in ShiftAll(dim, DownRight, centred) {
      ShiftAllMember(dim, DownRight, centred, c);
      ShiftAllMember(dim, UpLeft, cells, Shift(dim, UpLeft, c));
      ShiftInverse(dim, DownRight, c);
    }
  }

  lemma ShiftAllAscending(dim: int, t: Translation, cs: seq<Cell>)
    requires StrictlyAscending(cs)
    ensures StrictlyAscending(ShiftAll(dim, t, cs))
  {
    var r := ShiftAll(dim, t, cs);
    forall i, j | 0 <= i < j < |r| ensures LexLess(r[i], r[j]) {
      ShiftOrder(dim, t, cs[i], cs[j]);
    }
  }

  /** A bitmap with none of its low bits set yields no cell. */
  lemma {:induction false} BitmapCellsNone(dim: int, bitmap: nat, j: nat)
    requires dim > 0 && j <= NumCells(dim)
    requires forall k :: 0 <= k < j ==> !Bit(bitmap, k)
    ensures BitmapCells(dim, bitmap, j) == []
  {
    if j > 0 {
      BitmapCellsNone(dim, bitmap, j - 1);
    }
  }

  /** A number with an empty bitmap decodes to its two player fields and no vacated cells. */
  lemma PlayersOnly(dim: int, e1: nat, e2: nat, t: Translation)
    requires ValidDim(dim) && e2 < Pow2(dim)
    ensures Unpacked(dim, Shl(Shl(e1, dim) + e2, NumCells(dim)), t)
      == [Translate(dim, t, DecodePlayer(dim, e1)), Translate(dim, t, DecodePlayer(dim, e2))]
  {
    var w := Shl(e1, dim) + e2;
    var n := Shl(w, NumCells(dim));
    ShlSplit(w, 0, NumCells(dim));
    ShlSplit(e1, e2, dim);
    MaskSmall(e2, dim);
    assert Mask(w, dim) == Mask(e2, dim);
    ShlMul(w, NumCells(dim));
    forall k | 0 <= k < NumCells(dim) ensures !Bit(n, k) {
      ShiftedLowBitsClear(w, NumCells(dim), k);
    }
    BitmapCellsNone(dim, n, NumCells(dim));
  }
}
