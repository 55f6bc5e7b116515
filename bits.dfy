/** Go's unsigned integer types and the bit operators the RTP codec applies
    to them, on mathematical integers: a shift is a multiplication or a
    division by a power of two, a uint8 conversion keeps the value modulo
    256, and | is defined bit by bit. */
module Bits {

  /** Go's byte / uint8. */
  type byte = x: int | 0 <= x < 0x100

  type uint16 = x: int | 0 <= x < 0x1_0000
  type uint32 = x: int | 0 <= x < 0x1_0000_0000

  /** Go's uint8(x) for an int x: the value modulo 256 (also the result of
      uint8 arithmetic that wraps around). */
  function U8(x: int): (r: byte)
    ensures 0 <= x < 0x100 ==> r == x
  {
    x % 0x100
  }

  function Pow2(k: nat): (r: nat)
    ensures r >= 1
  {
    if k == 0 then 1 else 2 * Pow2(k - 1)
  }

  /** x << k without a width: doubling k times. A uint8 shift is
      U8(Shl(x, k)). */
  function Shl(x: nat, k: nat): nat {
    if k == 0 then x else 2 * Shl(x, k - 1)
  }

  /** x >> k: halving k times. */
  function Shr(x: nat, k: nat): (r: nat)
    ensures r <= x
  {
    if k == 0 then x else Shr(x / 2, k - 1)
  }

  /** x & mask for a mask of the form 2^k - 1, the only kind of mask in the
      codec: the low k bits of x. */
  function Mask(x: nat, mask: nat): (r: nat)
    ensures r <= mask
    ensures x <= mask ==> r == x
  {
    x % (mask + 1)
  }

  /** x | y, from the lowest bit up. */
  function Or(x: nat, y: nat): nat
    decreases x + y
  {
    if x == 0 then y
    else if y == 0 then x
    else 2 * Or(x / 2, y / 2) + (if x % 2 == 1 || y % 2 == 1 then 1 else 0)
  }

  /** x | y on two bytes is a byte. */
  function Or8(x: byte, y: byte): (r: byte)
    ensures r == Or(x, y)
  {
    OrBound(x, y, 8);
    Or(x, y)
  }

  /** x |= 1 << k when cond holds. */
  function SetIf(x: byte, cond: bool, k: nat): (r: byte)
    requires k < 8
    ensures r == if cond then Or(x, Shl(1, k)) else x
  {
    ShlOneByte(k);
    if cond then Or8(x, Shl(1, k)) else x
  }

  /** | keeps to the bit width of its operands. */
  lemma {:induction false} OrBound(x: nat, y: nat, k: nat)
    requires x < Pow2(k) && y < Pow2(k)
    ensures Or(x, y) < Pow2(k)
    decreases k
  {
    if x != 0 && y != 0 {
      OrBound(x / 2, y / 2, k - 1);
    }
  }

  /** A shift of a value below 2^j by k places is below 2^(j + k). */
  lemma {:induction false} ShlBound(x: nat, k: nat, j: nat)
    requires x < Pow2(j)
    ensures Shl(x, k) < Pow2(j + k)
    decreases k
  {
    if k > 0 {
      ShlBound(x, k - 1, j);
    }
  }

  /** 1 << k for k below 8 is a byte. */
  lemma ShlOneByte(k: nat)
    requires k < 8
    ensures Shl(1, k) < 0x100
  {
    if k == 0 {
    } else if k == 1 {
    } else if k == 2 {
    } else if k == 3 {
    } else if k == 4 {
    } else if k == 5 {
    } else if k == 6 {
    } else {
      assert k == 7;
    }
  }

  /** Halving a shifted value plus a low part halves the low part. */
  lemma ShlHalf(xh: nat, xl: nat, k: nat)
    requires k > 0
    ensures (Shl(xh, k) + xl) / 2 == Shl(xh, k - 1) + xl / 2
    ensures (Shl(xh, k) + xl) % 2 == xl % 2
  {
  }

  /** Only zero shifts to zero. */
  lemma {:induction false} ShlZero(x: nat, k: nat)
    requires Shl(x, k) == 0
    ensures x == 0
  {
    if k > 0 {
      ShlZero(x, k - 1);
    }
  }

  /** A shift by k + 1 is a shift of the double by k. */
  lemma {:induction false} ShlSucc(x: nat, k: nat)
    ensures Shl(x, k + 1) == Shl(2 * x, k)
  {
    if k > 0 {
      ShlSucc(x, k - 1);
    }
  }

  /** The shifts by 4 to 7 places as multiplications. */
  lemma ShlValues(x: nat)
    ensures Shl(x, 4) == 16 * x && Shl(x, 5) == 32 * x
    ensures Shl(x, 6) == 64 * x && Shl(x, 7) == 128 * x
  {
    assert Shl(x, 1) == 2 * x;
    assert Shl(x, 2) == 4 * x;
    assert Shl(x, 3) == 8 * x;
    assert Shl(x, 4) == 16 * x;
    assert Shl(x, 5) == 32 * x;
    assert Shl(x, 6) == 64 * x;
  }

  /** The shifts right by 4 to 7 places as divisions. */
  lemma ShrValues(x: nat)
    ensures Shr(x, 4) == x / 16 && Shr(x, 5) == x / 32
    ensures Shr(x, 6) == x / 64 && Shr(x, 7) == x / 128
  {
    assert x / 2 / 2 == x / 4;
    assert x / 4 / 2 == x / 8;
    assert x / 8 / 2 == x / 16;
    assert x / 16 / 2 == x / 32;
    assert x / 32 / 2 == x / 64;
    assert x / 64 / 2 == x / 128;
    assert Shr(x / 8, 1) == x / 16;
    assert Shr(x / 16, 1) == x / 32;
    assert Shr(x / 32, 1) == x / 64;
    assert Shr(x / 64, 1) == x / 128;
    assert Shr(x / 4, 2) == x / 16 && Shr(x / 8, 2) == x / 32;
    assert Shr(x / 16, 2) == x / 64 && Shr(x / 32, 2) == x / 128;
    assert Shr(x / 2, 3) == x / 16 && Shr(x / 4, 3) == x / 32;
    assert Shr(x / 8, 3) == x / 64 && Shr(x / 16, 3) == x / 128;
    assert Shr(x / 2, 4) == x / 32 && Shr(x / 4, 4) == x / 64 && Shr(x / 8, 4) == x / 128;
    assert Shr(x / 2, 5) == x / 64 && Shr(x / 4, 5) == x / 128;
    assert Shr(x / 2, 6) == x / 128;
  }

  /** The quotient and remainder of hi * d + lo by d, for d one of the
      powers of two the codec divides by. */
  lemma HighBits(x: nat, d: nat, hi: nat, lo: nat)
    requires d == 16 || d == 32 || d == 64
    requires lo < d && x == d * hi + lo
    ensures x / d == hi && x % d == lo
  {
    if d == 16 {
      assert x / 16 == hi;
    } else if d == 32 {
      assert x / 32 == hi;
    } else {
      assert x / 64 == hi;
    }
  }

  /** The recursion step of Or, whichever operand is zero. */
  lemma OrStep(x: nat, y: nat)
    ensures Or(x, y) == 2 * Or(x / 2, y / 2) + (if x % 2 == 1 || y % 2 == 1 then 1 else 0)
  {
  }

  /** | works on the bits above k and the bits below k separately. */
  lemma {:induction false} OrSplit(xh: nat, xl: nat, yh: nat, yl: nat, k: nat)
    requires xl < Pow2(k) && yl < Pow2(k)
    ensures Or(Shl(xh, k) + xl, Shl(yh, k) + yl) == Shl(Or(xh, yh), k) + Or(xl, yl)
    decreases k
  {
    var x := Shl(xh, k) + xl;
    var y := Shl(yh, k) + yl;
    if k == 0 {
      assert x == xh && y == yh && xl == 0 && yl == 0;
      assert Or(xl, yl) == 0;
    } else if x == 0 {
      ShlZero(xh, k);
      assert Or(xh, yh) == yh && Or(xl, yl) == yl;
    } else if y == 0 {
      ShlZero(yh, k);
      assert Or(xh, yh) == xh && Or(xl, yl) == xl;
    } else {
      OrSplit(xh, xl / 2, yh, yl / 2, k - 1);
      OrSplitStep(xh, xl, yh, yl, k);
    }
  }

  /** The inductive step of OrSplit: from the split one bit further up. */
  lemma OrSplitStep(xh: nat, xl: nat, yh: nat, yl: nat, k: nat)
    requires k > 0 && Shl(xh, k) + xl != 0 && Shl(yh, k) + yl != 0
    requires Or(Shl(xh, k - 1) + xl / 2, Shl(yh, k - 1) + yl / 2)
             == Shl(Or(xh, yh), k - 1) + Or(xl / 2, yl / 2)
    ensures Or(Shl(xh, k) + xl, Shl(yh, k) + yl) == Shl(Or(xh, yh), k) + Or(xl, yl)
  {
    ShlHalf(xh, xl, k);
    ShlHalf(yh, yl, k);
    OrStep(xl, yl);
  }

  /** Or'ing a shifted value into one with nothing at or above bit k. */
  lemma OrAbove(xh: nat, xl: nat, yh: nat, k: nat)
    requires xl < Pow2(k)
    ensures Or(Shl(xh, k) + xl, Shl(yh, k)) == Shl(Or(xh, yh), k) + xl
  {
    OrSplit(xh, xl, yh, 0, k);
    assert Shl(yh, k) + 0 == Shl(yh, k);
  }

  /** Or'ing a value below 2^k into a shifted one. */
  lemma OrBelow(xh: nat, yh: nat, yl: nat, k: nat)
    requires yl < Pow2(k)
    ensures Or(Shl(xh, k), Shl(yh, k) + yl) == Shl(Or(xh, yh), k) + yl
  {
    OrSplit(xh, 0, yh, yl, k);
    assert Shl(xh, k) + 0 == Shl(xh, k);
  }

  /** Setting bit 0 of an even number. */
  lemma OrOne(x: nat)
    ensures Or(2 * x, 1) == 2 * x + 1
  {
  }

  /** x |= 1 << k on a value whose bit k is clear sets just that bit. */
  lemma SetBit(xh: nat, xl: nat, k: nat, cond: bool)
    requires xl < Pow2(k)
    ensures (if cond then Or(Shl(2 * xh, k) + xl, Shl(1, k)) else Shl(2 * xh, k) + xl)
            == Shl(2 * xh + (if cond then 1 else 0), k) + xl
  {
    if cond {
      OrAbove(2 * xh, xl, 1, k);
      OrOne(xh);
    }
  }
}
