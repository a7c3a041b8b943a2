/**
 * Python's arbitrary-precision integer operations on non-negative numbers,
 * written out: `1 << k`, `n >> m`, `n & (2**m - 1)`, `(n >> k) & 1` and
 * `n | (1 << k)`.
 */
module Bits {

  /** `2 ** k`, also `1 << k`. */
  function Pow2(k: nat): (r: nat)
    ensures r >= 1
  {
    if k == 0 then 1 else 2 * Pow2(k - 1)
  }

  /** A product of naturals is a natural (a hint the solver's nonlinear arithmetic misses). */
  lemma MulNat(a: nat, b: nat)
    ensures a * b >= 0
  {
  }

  /** `n << k`: k doublings. */
  function Shl(n: nat, k: nat): nat
  {
    if k == 0 then n else 2 * Shl(n, k - 1)
  }

  /** A left shift multiplies by a power of two. */
  lemma {:induction false} ShlMul(n: nat, k: nat)
    ensures Shl(n, k) == n * Pow2(k)
  {
    if k > 0 {
      ShlMul(n, k - 1);
      MulTwice(n, Pow2(k - 1));
    }
  }

  /** `n >> m`: m halvings, each rounding down. */
  function Shr(n: nat, m: nat): nat
  {
    if m == 0 then n else Shr(n / 2, m - 1)
  }

  /** `n & (2 ** m - 1)`: the low m bits of n, rebuilt one bit at a time. */
  function Mask(n: nat, m: nat): (r: nat)
    ensures r < Pow2(m)
  {
    if m == 0 then 0 else 2 * Mask(n / 2, m - 1) + n % 2
  }

  /** `(n >> k) & 1 == 1`: bit k of n is set. */
  predicate Bit(n: nat, k: nat)
  {
    Shr(n, k) % 2 == 1
  }

  /** `n | (1 << k)`: adds `2 ** k` exactly when bit k is clear. */
  function SetBit(n: nat, k: nat): nat
  {
    if Bit(n, k) then n else n + Pow2(k)
  }

  /** `n | m`, bit by bit from the least significant end. */
  function Or(n: nat, m: nat): nat
    decreases n + m
  {
    if n == 0 then m
    else if m == 0 then n
    else 2 * Or(n / 2, m / 2) + (if n % 2 == 1 || m % 2 == 1 then 1 else 0)
  }

  /** OR-ing in the single bit `1 << k` is setting bit k. */
  lemma {:induction false} OrPow2(n: nat, k: nat)
    ensures Or(n, Pow2(k)) == SetBit(n, k)
  {
    if n == 0 {
      assert !Bit(0, k) by { ZeroShr(k); }
    } else if k == 0 {
      assert Or(n / 2, 0) == n / 2;
    } else {
      OrPow2(n / 2, k - 1);
      SetBitHalf(n, k - 1);
    }
  }

  lemma {:induction false} ShrSucc(n: nat, m: nat)
    ensures Shr(n, m + 1) == Shr(n, m) / 2
  {
    if m > 0 {
      ShrSucc(n / 2, m - 1);
    }
  }

  lemma {:induction false} ShrAdd(n: nat, a: nat, b: nat)
    ensures Shr(Shr(n, a), b) == Shr(n, a + b)
  {
    if a > 0 {
      ShrAdd(n / 2, a - 1, b);
    }
  }

  /** Bit k of n is bit k-1 of n >> 1. */
  lemma BitHalf(n: nat, k: nat)
    requires k > 0
    ensures Bit(n, k) == Bit(n / 2, k - 1)
  {
  }

  /** `(x << m) + y`, for y below `2 ** m`, splits back into x (`>> m`) and y (`& mask`). */
  lemma {:induction false} Split(x: nat, y: nat, m: nat)
    requires y < Pow2(m)
    ensures Shr(x * Pow2(m) + y, m) == x
    ensures Mask(x * Pow2(m) + y, m) == y
  {
    if m > 0 {
      var a := x * Pow2(m - 1);
      MulTwice(x, Pow2(m - 1));
      var n := x * Pow2(m) + y;
      assert n == 2 * (a + y / 2) + y % 2;
      DivModUnique(2, n, a + y / 2, y % 2);
      Split(x, y / 2, m - 1);
    }
  }

  /** Split, for a left shift: `((x << m) + y) >> m == x` and `((x << m) + y) & (2**m - 1) == y`. */
  lemma ShlSplit(x: nat, y: nat, m: nat)
    requires y < Pow2(m)
    ensures Shr(Shl(x, m) + y, m) == x
    ensures Mask(Shl(x, m) + y, m) == y
  {
    ShlMul(x, m);
    Split(x, y, m);
  }

  /** A number below `2 ** m` is its own low m bits. */
  lemma MaskSmall(n: nat, m: nat)
    requires n < Pow2(m)
    ensures Mask(n, m) == n
  {
    Split(0, n, m);
  }

  /** `x << m` has its low m bits clear. */
  lemma {:induction false} ShiftedLowBitsClear(x: nat, m: nat, k: nat)
    requires k < m
    ensures !Bit(x * Pow2(m), k)
  {
    assert x * Pow2(m) == 2 * (x * Pow2(m - 1));
    if k > 0 {
      BitHalf(x * Pow2(m), k);
      ShiftedLowBitsClear(x, m - 1, k - 1);
    }
  }

  /** `1 << k` has exactly bit k set. */
  lemma {:induction false} PowerBits(k: nat, j: nat)
    ensures Bit(Pow2(k), j) <==> j == k
  {
    if k > 0 && j > 0 {
      BitHalf(Pow2(k), j);
      PowerBits(k - 1, j - 1);
    } else if k > 0 {
      assert Pow2(k) % 2 == 0;
    } else if j > 0 {
      BitHalf(1, j);
      assert Shr(0, j - 1) == 0 by { ZeroShr(j - 1); }
    }
  }

  lemma {:induction false} ZeroShr(m: nat)
    ensures Shr(0, m) == 0
  {
    if m > 0 {
      ZeroShr(m - 1);
    }
  }

  /** Setting bit k + 1 of n is setting bit k of n >> 1 and keeping bit 0. */
  lemma SetBitHalf(n: nat, k: nat)
    ensures SetBit(n, k + 1) / 2 == SetBit(n / 2, k)
    ensures SetBit(n, k + 1) % 2 == n % 2
  {
    BitHalf(n, k + 1);
  }

  /** Setting bit k sets bit k and leaves every other bit as it was. */
  lemma {:induction false} SetBitBits(n: nat, k: nat, j: nat)
    ensures Bit(SetBit(n, k), j) <==> j == k || Bit(n, j)
  {
    if j == 0 {
      if k > 0 {
        SetBitHalf(n, k - 1);
      }
    } else {
      BitHalf(SetBit(n, k), j);
      BitHalf(n, j);
      if k == 0 {
        assert SetBit(n, 0) / 2 == n / 2;
      } else {
        SetBitHalf(n, k - 1);
        SetBitBits(n / 2, k - 1, j - 1);
      }
    }
  }

  /** Setting a bit below position m leaves `n >> m` unchanged. */
  lemma {:induction false} SetBitShr(n: nat, k: nat, m: nat)
    requires k < m
    ensures Shr(SetBit(n, k), m) == Shr(n, m)
  {
    if k == 0 {
      assert SetBit(n, 0) / 2 == n / 2;
    } else {
      SetBitHalf(n, k - 1);
      SetBitShr(n / 2, k - 1, m - 1);
    }
  }

  /** A number below `2 ** w` is fixed by its low w bits. */
  lemma {:induction false} BitsDetermine(a: nat, b: nat, w: nat)
    requires a < Pow2(w) && b < Pow2(w)
    requires forall k :: 0 <= k < w ==> (Bit(a, k) <==> Bit(b, k))
    ensures a == b
  {
    if w > 0 {
      assert Bit(a, 0) <==> Bit(b, 0);
      forall k | 0 <= k < w - 1 ensures Bit(a / 2, k) <==> Bit(b / 2, k) {
        BitHalf(a, k + 1);
        BitHalf(b, k + 1);
      }
      BitsDetermine(a / 2, b / 2, w - 1);
    }
  }

  /** A number that m shifts bring to zero is below `2 ** m`. */
  lemma {:induction false} ShrZeroBound(n: nat, m: nat)
    requires Shr(n, m) == 0
    ensures n < Pow2(m)
  {
    if m > 0 {
      ShrZeroBound(n / 2, m - 1);
    }
  }

  /** Every one of the low m bits of `2 ** m - 1` is set. */
  lemma {:induction false} AllOnesBits(m: nat, k: nat)
    requires k < m
    ensures Bit(Pow2(m) - 1, k)
  {
    if k > 0 {
      BitHalf(Pow2(m) - 1, k);
      assert (Pow2(m) - 1) / 2 == Pow2(m - 1) - 1;
      AllOnesBits(m - 1, k - 1);
    }
  }

  /** The mask is the remainder: `n & (2**m - 1) == n % 2**m`. */
  lemma {:induction false} MaskMod(n: nat, m: nat)
    ensures Mask(n, m) == n % Pow2(m)
  {
    if m > 0 {
      var p := Pow2(m - 1);
      var h, b := n / 2, n % 2;
      MaskMod(h, m - 1);
      var q, r := h / p, h % p;
      DivModBasics(h, p);
      MulTwice(q, p);
      DivModUnique(2 * p, n, q, 2 * r + b);
    }
  }

  lemma DivModBasics(h: int, p: int)
    requires p > 0
    ensures h == (h / p) * p + h % p && 0 <= h % p < p
  {
  }

  lemma MulTwice(q: int, p: int)
    ensures q * (2 * p) == 2 * (q * p)
  {
  }

  lemma DivModUnique(dim: int, n: int, q: int, r: int)
    requires dim > 0 && n == q * dim + r && 0 <= r < dim
    ensures n / dim == q && n % dim == r
  {
    var Q, R := n / dim, n % dim;
    assert (q - Q) * dim == q * dim - Q * dim;
    if q > Q {
      MulAtLeast(q - Q, dim);
    } else if q < Q {
      MulAtLeast(Q - q, dim);
    }
  }

  /** `a * d >= d` for a positive multiplier, without nonlinear search. */
  lemma {:induction false} MulAtLeast(a: int, d: int)
    requires a >= 1 && d >= 0
    ensures a * d >= d
  {
    if a > 1 {
      MulAtLeast(a - 1, d);
      assert a * d == (a - 1) * d + d;
    }
  }

  lemma {:induction false} MulMono(a: int, b: int, d: int)
    requires 0 <= a <= b && d >= 0
    ensures a * d <= b * d
  {
    if a < b {
      MulAtLeast(b - a, d);
      assert b * d - a * d == (b - a) * d;
    }
  }
}
