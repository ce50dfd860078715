/**
 * The 64-slot occupancy bitmaps of the timing wheels (`uint64_t bitmap_`), modelled as the
 * natural number the word holds. `Bit(b, i)` is `(b >> i) & 1`; setting, clearing, shifting
 * and count-trailing-zeros are written on that number.
 */
module Bits {
  function Pow2(n: nat): (r: nat)
    ensures r >= 1
  {
    if n == 0 then 1 else 2 * Pow2(n - 1)
  }

  /** The value fits in a 64-bit word. */
  predicate Word(b: nat) { b < Pow2(64) }

  /** `(b >> i) & 1 == 1`. */
  predicate Bit(b: nat, i: nat)
  {
    if i == 0 then b % 2 == 1 else Bit(b / 2, i - 1)
  }

  lemma {:induction false} SetBitAt(b: nat, i: nat, j: nat)
    requires !Bit(b, i)
    ensures Bit(b + Pow2(i), j) <==> j == i || Bit(b, j)
  {
    if i > 0 && j > 0 {
      assert (b + Pow2(i)) / 2 == b / 2 + Pow2(i - 1);
      SetBitAt(b / 2, i - 1, j - 1);
    }
  }

  lemma {:induction false} ClearBitAt(b: nat, i: nat, j: nat)
    requires Bit(b, i)
    ensures b >= Pow2(i)
    ensures Bit(b - Pow2(i), j) <==> j != i && Bit(b, j)
  {
    if i > 0 {
      ClearBitAt(b / 2, i - 1, if j > 0 then j - 1 else 0);
      assert (b - Pow2(i)) / 2 == b / 2 - Pow2(i - 1);
    }
  }

  lemma {:induction false} SetBitBound(b: nat, i: nat, n: nat)
    requires b < Pow2(n) && i < n && !Bit(b, i)
    ensures b + Pow2(i) < Pow2(n)
  {
    var h, p := b / 2, Pow2(n - 1);
    assert Pow2(n) == 2 * p;
    assert b == 2 * h + b % 2;
    if i > 0 {
      assert h < p;
      SetBitBound(h, i - 1, n - 1);
      assert Pow2(i) == 2 * Pow2(i - 1);
      assert h + Pow2(i - 1) + 1 <= p;
    } else {
      assert b % 2 == 0;
    }
  }

  /** `b | (1 << i)`: sets bit i and leaves every other bit as it was. */
  function SetBit(b: nat, i: nat): (r: nat)
    ensures forall j: nat :: Bit(r, j) <==> j == i || Bit(b, j)
    ensures forall n: nat :: b < Pow2(n) && i < n ==> r < Pow2(n)
  {
    if Bit(b, i) then b
    else
      assert forall j: nat :: Bit(b + Pow2(i), j) <==> j == i || Bit(b, j) by {
        forall j: nat ensures Bit(b + Pow2(i), j) <==> j == i || Bit(b, j) { SetBitAt(b, i, j); }
      }
      assert forall n: nat :: b < Pow2(n) && i < n ==> b + Pow2(i) < Pow2(n) by {
        forall n: nat | b < Pow2(n) && i < n ensures b + Pow2(i) < Pow2(n) { SetBitBound(b, i, n); }
      }
      b + Pow2(i)
  }

  /** `b & ~(1 << i)`: clears bit i and leaves every other bit as it was. */
  function ClearBit(b: nat, i: nat): (r: nat)
    ensures forall j: nat :: Bit(r, j) <==> j != i && Bit(b, j)
    ensures r <= b
  {
    if !Bit(b, i) then b
    else
      ClearBitAt(b, i, i);
      assert forall j: nat :: Bit(b - Pow2(i), j) <==> j != i && Bit(b, j) by {
        forall j: nat ensures Bit(b - Pow2(i), j) <==> j != i && Bit(b, j) { ClearBitAt(b, i, j); }
      }
      b - Pow2(i)
  }

  /** `b >> s`: bit j of the result is bit j + s of b. */
  function ShiftDown(b: nat, s: nat): (r: nat)
    ensures r <= b
    ensures forall j: nat :: Bit(r, j) <==> Bit(b, j + s)
  {
    if s == 0 then b
    else
      var r := ShiftDown(b / 2, s - 1);
      assert forall j: nat :: Bit(r, j) <==> Bit(b, j + s) by {
        forall j: nat ensures Bit(r, j) <==> Bit(b, j + s) {
          assert Bit(b, j + s) == Bit(b / 2, j + s - 1);
        }
      }
      r
  }

  /** `std::countr_zero(b)` for a non-zero word: the lowest set bit. */
  function CountrZero(b: nat): (r: nat)
    requires b > 0
    ensures Bit(b, r)
    ensures forall j: nat :: j < r ==> !Bit(b, j)
    ensures forall n: nat :: b < Pow2(n) ==> r < n
  {
    if b % 2 == 1 then 0
    else
      var r := 1 + CountrZero(b / 2);
      assert forall j: nat :: j < r ==> !Bit(b, j) by {
        forall j: nat | j < r ensures !Bit(b, j) {
          if j > 0 { assert Bit(b, j) == Bit(b / 2, j - 1); }
        }
      }
      assert forall n: nat :: b < Pow2(n) ==> r < n by {
        forall n: nat | b < Pow2(n) ensures r < n {
          if n == 0 { assert false; }
          assert b / 2 < Pow2(n - 1);
        }
      }
      r
  }

  /** A word is zero exactly when none of its low n bits is set. */
  lemma ZeroIffNoBit(b: nat, n: nat)
    requires b < Pow2(n)
    ensures b == 0 ==> forall j: nat :: !Bit(b, j)
    ensures b != 0 ==> exists j: nat :: j < n && Bit(b, j)
  {
    if b > 0 {
      var k := CountrZero(b);
      assert k < n && Bit(b, k);
    } else {
      forall j: nat ensures !Bit(b, j) { ZeroHasNoBit(j); }
    }
  }

  lemma {:induction false} ZeroHasNoBit(j: nat)
    ensures !Bit(0, j)
  {
    if j > 0 { ZeroHasNoBit(j - 1); }
  }

  /** A value below 2^n has no bit at n or above. */
  lemma {:induction false} HighBitClear(b: nat, n: nat, j: nat)
    requires b < Pow2(n) && j >= n
    ensures !Bit(b, j)
  {
    if n == 0 {
      ZeroHasNoBit(j);
    } else {
      HighBitClear(b / 2, n - 1, j - 1);
    }
  }
}
