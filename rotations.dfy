/**
 * The eight symmetries of the square, applied to centre-offset board
 * coordinates (my-board/board_rotations.py). A 3-bit flag picks the
 * transform: bit 2 swaps the two components, bit 1 negates the first, bit 0
 * negates the second. In this version the components are negated first and
 * swapped afterwards; `reverse` undoes a transform.
 */
module Rotations {
  import opened Common
  import Bits

  /** The three actions a flag selects. */
  datatype Transform = Transform(swap: bool, negX: bool, negY: bool)

  /**
   * `(flag & 0b100) >> 2`, `(flag & 0b010) >> 1`, `flag & 0b001`; in reverse
   * mode a swapping transform exchanges its two negation bits.
   */
  function DecodeFlag(flag: nat, reverse: bool): (t: Transform)
    ensures var (first, second) := if reverse && t.swap then (t.negY, t.negX) else (t.negX, t.negY);
      (if t.swap then 4 else 0) + (if first then 2 else 0) + (if second then 1 else 0) == flag % 8
  {
    FlagBits(flag);
    var swap := (flag / 4) % 2 == 1;
    var negX := (flag / 2) % 2 == 1;
    var negY := flag % 2 == 1;
    if reverse && swap then Transform(swap, negY, negX) else Transform(swap, negX, negY)
  }

  /** The low three bits of a flag, read one at a time, make up `flag % 8`. */
  lemma FlagBits(flag: nat)
    ensures flag % 8 == 4 * ((flag / 4) % 2) + 2 * ((flag / 2) % 2) + flag % 2
  {
    var q, r := flag / 8, flag % 8;
    Bits.DivModUnique(4, flag, 2 * q + r / 4, r % 4);
    Bits.DivModUnique(2, flag, 4 * q + r / 2, r % 2);
    Bits.DivModUnique(2, 2 * q + r / 4, q, r / 4);
    Bits.DivModUnique(2, 4 * q + r / 2, 2 * q + r / 4, (r / 2) % 2);
  }

  /** `1 - 2 * neg`. */
  function Sign(neg: bool): int
  {
    if neg then -1 else 1
  }

  /** One coordinate: multiply by the signs, then swap if asked. */
  function RotateCell(t: Transform, c: Cell): (r: Cell)
    ensures r.0 * r.0 + r.1 * r.1 == c.0 * c.0 + c.1 * c.1
    ensures t == Transform(false, false, false) ==> r == c
  {
    var x := Sign(t.negX) * c.0;
    var y := Sign(t.negY) * c.1;
    if t.swap then (y, x) else (x, y)
  }

  /** A list entry: `None` stays `None`. */
  function RotateEntry(t: Transform, p: Option<Cell>): Option<Cell>
  {
    match p
    case None => None
    case Some(c) => Some(RotateCell(t, c))
  }

  /** The list `rotate(coords, flag, reverse)` returns; flag 0 hands back the input itself. */
  function Rotated(coords: seq<Option<Cell>>, flag: nat, reverse: bool): (r: seq<Option<Cell>>)
    ensures |r| == |coords|
    ensures forall i :: 0 <= i < |r| ==> (r[i].None? <==> coords[i].None?)
  {
    if flag == 0 then coords
    else seq(|coords|, i requires 0 <= i < |coords| => RotateEntry(DecodeFlag(flag, reverse), coords[i]))
  }

  /** `rotate`: appends one transformed entry per input entry to a fresh list. */
  method Rotate(coords: seq<Option<Cell>>, flag: nat, reverse: bool) returns (rotated: seq<Option<Cell>>)
    ensures rotated == Rotated(coords, flag, reverse)
  {
    if flag == 0 {
      return coords;
    }
    var t := DecodeFlag(flag, reverse);
    rotated := [];
    var i := 0;
    while i < |coords|
      invariant 0 <= i <= |coords|
      invariant |rotated| == i
      invariant forall k :: 0 <= k < i ==> rotated[k] == RotateEntry(t, coords[k])
    {
      rotated := rotated + [RotateEntry(t, coords[i])];
      i := i + 1;
    }
  }

  /** `enum_rotations`: the pairs `(flag, rotate(coords, flag))` for flags 0 to 7, in order. */
  method EnumRotations(coords: seq<Option<Cell>>) returns (all: seq<(nat, seq<Option<Cell>>)>)
    ensures |all| == 8
    ensures forall f :: 0 <= f < 8 ==> all[f] == (f, Rotated(coords, f, false))
  {
    all := [(0, coords)];
    var flag := 1;
    while flag < 8
      invariant 1 <= flag <= 8
      invariant |all| == flag
      invariant forall f :: 0 <= f < flag ==> all[f] == (f, Rotated(coords, f, false))
    {
      var r := Rotate(coords, flag, false);
      all := all + [(flag, r)];
      flag := flag + 1;
    }
  }

  /** The eight images of `(x, y)` as the module's documentation tabulates them. */
  function Tabulated(flag: nat, c: Cell): Cell
    requires flag < 8
  {
    var (x, y) := c;
    if flag == 0 then (x, y)
    else if flag == 1 then (x, -y)
    else if flag == 2 then (-x, y)
    else if flag == 3 then (-x, -y)
    else if flag == 4 then (y, x)
    else if flag == 5 then (-y, x)
    else if flag == 6 then (y, -x)
    else (-y, -x)
  }

  /** Every flag performs the transform the documentation lists for it. */
  lemma MatchesTable(flag: nat, c: Cell)
    requires flag < 8
    ensures Rotated([Some(c)], flag, false) == [Some(Tabulated(flag, c))]
  {
    if flag != 0 {
      var t := DecodeFlag(flag, false);
      assert Rotated([Some(c)], flag, false)[0] == Some(RotateCell(t, c));
    }
  }

  /** The `__main__` check: the eight images of `(3, 2)`, each undone by reverse mode. */
  lemma PointTable()
    ensures Rotated([Some((3, 2))], 0, false) == [Some((3, 2))]
    ensures Rotated([Some((3, 2))], 1, false) == [Some((3, -2))]
    ensures Rotated([Some((3, 2))], 2, false) == [Some((-3, 2))]
    ensures Rotated([Some((3, 2))], 3, false) == [Some((-3, -2))]
    ensures Rotated([Some((3, 2))], 4, false) == [Some((2, 3))]
    ensures Rotated([Some((3, 2))], 5, false) == [Some((-2, 3))]
    ensures Rotated([Some((3, 2))], 6, false) == [Some((2, -3))]
    ensures Rotated([Some((3, 2))], 7, false) == [Some((-2, -3))]
    ensures forall f :: 0 <= f < 8 ==> Rotated(Rotated([Some((3, 2))], f, false), f, true) == [Some((3, 2))]
  {
    MatchesTable(1, (3, 2));
    MatchesTable(2, (3, 2));
    MatchesTable(3, (3, 2));
    MatchesTable(4, (3, 2));
    MatchesTable(5, (3, 2));
    MatchesTable(6, (3, 2));
    MatchesTable(7, (3, 2));
    forall f | 0 <= f < 8 ensures Rotated(Rotated([Some((3, 2))], f, false), f, true) == [Some((3, 2))] {
      RotateInverse([Some((3, 2))], f);
    }
  }

  /** Reverse mode undoes a transform on a single coordinate. */
  lemma CellInverse(flag: nat, c: Cell)
    ensures RotateCell(DecodeFlag(flag, true), RotateCell(DecodeFlag(flag, false), c)) == c
  {
  }

  /** `rotate(rotate(coords, flag), flag, True) == coords`, `None` entries included. */
  lemma RotateInverse(coords: seq<Option<Cell>>, flag: nat)
    ensures Rotated(Rotated(coords, flag, false), flag, true) == coords
  {
    if flag != 0 {
      var once := Rotated(coords, flag, false);
      var twice := Rotated(once, flag, true);
      forall i | 0 <= i < |coords| ensures twice[i] == coords[i] {
        if coords[i].Some? {
          CellInverse(flag, coords[i].value);
        }
      }
    }
  }

  /** The flag of a transform: its swap bit, then its two negation bits. */
  function FlagOf(t: Transform): (f: nat)
    ensures f < 8 && DecodeFlag(f, false) == t
  {
    (if t.swap then 4 else 0) + (if t.negX then 2 else 0) + (if t.negY then 1 else 0)
  }

  /** The transform that does `first` and then `second`. */
  function ComposeTransform(first: Transform, second: Transform): Transform
  {
    var cross := first.swap;
    Transform(first.swap != second.swap,
              first.negX != (if cross then second.negY else second.negX),
              first.negY != (if cross then second.negX else second.negY))
  }

  /** The flag of `rotate(rotate(coords, f), g)`. */
  function ComposeFlag(f: nat, g: nat): nat
  {
    FlagOf(ComposeTransform(DecodeFlag(f, false), DecodeFlag(g, false)))
  }

  /** The flag `g` with `ComposeFlag(f, g) == h`: undo `f`, then do `h`. */
  function CancelFlag(f: nat, h: nat): nat
  {
    var t, u := DecodeFlag(f, false), DecodeFlag(h, false);
    var cross := t.swap;
    FlagOf(Transform(t.swap != u.swap,
                     if cross then t.negY != u.negY else t.negX != u.negX,
                     if cross then t.negX != u.negX else t.negY != u.negY))
  }

  /** Doing two transforms one after the other is doing their composition. */
  lemma ComposeCell(first: Transform, second: Transform, c: Cell)
    ensures RotateCell(second, RotateCell(first, c)) == RotateCell(ComposeTransform(first, second), c)
  {
    var (x, y) := c;
    assert Sign(first.negX) * x == if first.negX then -x else x;
    assert Sign(first.negY) * y == if first.negY then -y else y;
  }

  /** Every flag, 0 included, acts on each entry through its decoded transform. */
  lemma RotatedEntries(coords: seq<Option<Cell>>, flag: nat)
    ensures forall i :: 0 <= i < |coords| ==> Rotated(coords, flag, false)[i] == RotateEntry(DecodeFlag(flag, false), coords[i])
  {
    if flag == 0 {
      forall i | 0 <= i < |coords|
        ensures Rotated(coords, flag, false)[i] == RotateEntry(DecodeFlag(flag, false), coords[i])
      {
        assert DecodeFlag(0, false) == Transform(false, false, false);
      }
    }
  }

  /**
   * The eight transforms are closed under composition: rotating by `f` and
   * then by `g` is rotating by the single flag `ComposeFlag(f, g)`.
   */
  lemma Compose(coords: seq<Option<Cell>>, f: nat, g: nat)
    ensures ComposeFlag(f, g) < 8
    ensures Rotated(Rotated(coords, f, false), g, false) == Rotated(coords, ComposeFlag(f, g), false)
  {
    var h := ComposeFlag(f, g);
    var once := Rotated(coords, f, false);
    RotatedEntries(coords, f);
    RotatedEntries(once, g);
    RotatedEntries(coords, h);
    forall i | 0 <= i < |coords|
      ensures Rotated(once, g, false)[i] == Rotated(coords, h, false)[i]
    {
      if coords[i].Some? {
        ComposeCell(DecodeFlag(f, false), DecodeFlag(g, false), coords[i].value);
      }
    }
  }

  /** A flag below 8 is the flag of its own transform. */
  lemma FlagRoundTrip(f: nat)
    requires f < 8
    ensures FlagOf(DecodeFlag(f, false)) == f
  {
  }

  /** Composition with a fixed first transform never merges two second transforms. */
  lemma ComposeCancels(t: Transform, u1: Transform, u2: Transform)
    requires ComposeTransform(t, u1) == ComposeTransform(t, u2)
    ensures u1 == u2
  {
  }

  /** `CancelFlag(f, h)` is the second flag that, after `f`, gives `h`. */
  lemma CancelComposes(f: nat, h: nat)
    requires h < 8
    ensures CancelFlag(f, h) < 8 && ComposeFlag(f, CancelFlag(f, h)) == h
  {
    FlagRoundTrip(h);
  }

  /** For a fixed first flag, `g ↦ ComposeFlag(f, g)` is a bijection of the flags 0 to 7. */
  lemma ComposeBijective(f: nat)
    ensures forall g1, g2 :: 0 <= g1 < 8 && 0 <= g2 < 8 && ComposeFlag(f, g1) == ComposeFlag(f, g2) ==> g1 == g2
    ensures forall h :: 0 <= h < 8 ==> CancelFlag(f, h) < 8 && ComposeFlag(f, CancelFlag(f, h)) == h
  {
    forall g1, g2 | 0 <= g1 < 8 && 0 <= g2 < 8 && ComposeFlag(f, g1) == ComposeFlag(f, g2)
      ensures g1 == g2
    {
      var d1, d2 := DecodeFlag(g1, false), DecodeFlag(g2, false);
      ComposeCancels(DecodeFlag(f, false), d1, d2);
      FlagRoundTrip(g1);
      FlagRoundTrip(g2);
    }
    forall h | 0 <= h < 8
      ensures CancelFlag(f, h) < 8 && ComposeFlag(f, CancelFlag(f, h)) == h
    {
      CancelComposes(f, h);
    }
  }

  /** Rotating by flag 0 second changes nothing: composing with 0 keeps the flag. */
  lemma ComposeZero(f: nat)
    requires f < 8
    ensures ComposeFlag(f, 0) == f
  {
    assert DecodeFlag(0, false) == Transform(false, false, false);
    FlagRoundTrip(f);
  }

  /** Cells within `k` of the centre in both components. */
  predicate InSquare(k: int, c: Cell)
  {
    -k <= c.0 <= k && -k <= c.1 <= k
  }

  /** A transform maps the centred square onto itself. */
  lemma SquareInvariant(t: Transform, k: int, c: Cell)
    ensures InSquare(k, RotateCell(t, c)) <==> InSquare(k, c)
  {
  }

  /** A transform never sends two different cells to the same cell. */
  lemma Injective(flag: nat, reverse: bool, a: Cell, b: Cell)
    requires RotateCell(DecodeFlag(flag, reverse), a) == RotateCell(DecodeFlag(flag, reverse), b)
    ensures a == b
  {
    if reverse {
      CellInverse(flag, RotateCell(DecodeFlag(flag, true), a));
      CellInverse(flag, RotateCell(DecodeFlag(flag, true), b));
      ReverseInverse(flag, a);
      ReverseInverse(flag, b);
    } else {
      CellInverse(flag, a);
      CellInverse(flag, b);
    }
  }

  /** The forward transform also undoes the reverse one. */
  lemma ReverseInverse(flag: nat, c: Cell)
    ensures RotateCell(DecodeFlag(flag, false), RotateCell(DecodeFlag(flag, true), c)) == c
  {
  }
}
