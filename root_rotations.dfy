/**
 * The older `rotate` of board_rotations.py: the same 3-bit flags (decoded as
 * in `Rotations`), but each coordinate is swapped first and negated
 * afterwards, so a swapping flag yields a different symmetry from the
 * my-board version.
 */
module RootRotations {
  import opened Common
  import R = Rotations

  /** `((1 - 2*neg_x) * (y if swap else x), (1 - 2*neg_y) * (x if swap else y))`. */
  function RotateCell(t: R.Transform, c: Cell): (r: Cell)
    ensures r.0 * r.0 + r.1 * r.1 == c.0 * c.0 + c.1 * c.1
    ensures t == R.Transform(false, false, false) ==> r == c
  {
    (R.Sign(t.negX) * (if t.swap then c.1 else c.0), R.Sign(t.negY) * (if t.swap then c.0 else c.1))
  }

  function RotateEntry(t: R.Transform, p: Option<Cell>): Option<Cell>
  {
    match p
    case None => None
    case Some(c) => Some(RotateCell(t, c))
  }

  /** The list `rotate(co_ords, flag, reverse)` returns; flag 0 hands back the input itself. */
  function Rotated(coords: seq<Option<Cell>>, flag: nat, reverse: bool): (r: seq<Option<Cell>>)
    ensures |r| == |coords|
    ensures forall i :: 0 <= i < |r| ==> (r[i].None? <==> coords[i].None?)
  {
    if flag == 0 then coords
    else seq(|coords|, i requires 0 <= i < |coords| => RotateEntry(R.DecodeFlag(flag, reverse), coords[i]))
  }

  /** `rotate`: appends one transformed entry per input entry to a fresh list. */
  method Rotate(coords: seq<Option<Cell>>, flag: nat, reverse: bool) returns (rotated: seq<Option<Cell>>)
    ensures rotated == Rotated(coords, flag, reverse)
  {
    if flag == 0 {
      return coords;
    }
    var t := R.DecodeFlag(flag, reverse);
    rotated := [];
    var i := 0;
    while i < |coords|
      invariant 0 <= i <= |coords|
      invariant |rotated| == i
      invariant forall k :: 0 <= k < i ==> rotated[k] == RotateEntry(t, coords[k])
    {
      rotated := rotated + [RotateEntry(t, coords[i])];
      i := i + 1;
    }
  }

  /** Without the swap bit, bit 1 negates the first component and bit 0 the second. */
  lemma NoSwap(flag: nat, c: Cell)
    requires 0 < flag < 4
    ensures Rotated([Some(c)], flag, false)
      == [Some((if flag >= 2 then -c.0 else c.0, if flag % 2 == 1 then -c.1 else c.1))]
  {
    assert Rotated([Some(c)], flag, false)[0] == Some(RotateCell(R.DecodeFlag(flag, false), c));
  }

  /** With the swap bit, the components are swapped and then negated. */
  lemma WithSwap(flag: nat, c: Cell)
    requires 4 <= flag < 8
    ensures Rotated([Some(c)], flag, false)
      == [Some((if flag >= 6 then -c.1 else c.1, if flag % 2 == 1 then -c.0 else c.0))]
  {
    assert Rotated([Some(c)], flag, false)[0] == Some(RotateCell(R.DecodeFlag(flag, false), c));
  }

  /** `rotate(rotate(co_ords, flag), flag, True) == co_ords`, `None` entries included. */
  lemma RotateInverse(coords: seq<Option<Cell>>, flag: nat)
    ensures Rotated(Rotated(coords, flag, false), flag, true) == coords
  {
    if flag != 0 {
      var once := Rotated(coords, flag, false);
      var twice := Rotated(once, flag, true);
      forall i | 0 <= i < |coords| ensures twice[i] == coords[i] {
        if coords[i].Some? {
          var c := coords[i].value;
          assert RotateCell(R.DecodeFlag(flag, true), RotateCell(R.DecodeFlag(flag, false), c)) == c;
        }
      }
    }
  }

  /**
   * How the two versions relate: this module's forward transform is the
   * my-board version's reverse one, and the other way round. They agree on
   * every flag without the swap bit and differ on `(3, 2)` under flag 5.
   */
  lemma MyBoardRelation(coords: seq<Option<Cell>>, flag: nat)
    ensures Rotated(coords, flag, false) == R.Rotated(coords, flag, true)
    ensures Rotated(coords, flag, true) == R.Rotated(coords, flag, false)
    ensures Rotated([Some((3, 2))], 5, false) == [Some((2, -3))] != R.Rotated([Some((3, 2))], 5, false)
  {
    if flag != 0 {
      forall i | 0 <= i < |coords|
        ensures Rotated(coords, flag, false)[i] == R.Rotated(coords, flag, true)[i]
        ensures Rotated(coords, flag, true)[i] == R.Rotated(coords, flag, false)[i]
      {
      }
    }
    R.MatchesTable(5, (3, 2));
    assert Rotated([Some((3, 2))], 5, false)[0] == Some(RotateCell(R.DecodeFlag(5, false), (3, 2)));
  }
}
