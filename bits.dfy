/**
 The bitwise operators of Python's unbounded integers. `&`, `|` and `^`
 are written bit by bit over division and remainder by 2; `~` and `<<` are
 given in closed form (`-x - 1` and `x * 2**n`). `|` and `^` are defined
 for non-negative operands only, which is all the harness applies them to.

 Python reads an integer as an infinite two's-complement bit string, so
 `x & m` is defined for negative `x` too (`-1 & 0xF == 15`). Dafny's `/` and
 `%` by a positive divisor round toward negative infinity for the quotient
 and keep the remainder non-negative, which is exactly Python's `//` and `%`
 there; peeling one bit with `x / 2` and `x % 2` therefore follows Python's
 bit string, sign bits included.
 */
module Bits {

  /** 2 to the power k. */
  function Pow2(k: nat): (r: nat)
    ensures r >= 1
  {
    if k == 0 then 1 else 2 * Pow2(k - 1)
  }

  /** Bit i of x (bit 0 is the least significant), as Python's `(x >> i) & 1 == 1`. */
  function Bit(x: int, i: nat): bool
    decreases i
  {
    if i == 0 then x % 2 == 1 else Bit(x / 2, i - 1)
  }

  /** Python's `x << n` for a non-negative x. */
  function ShiftLeft(x: nat, n: nat): nat
  {
    x * Pow2(n)
  }

  /** Python's `~x`: the integer whose bit string is the complement of x's. */
  function BitNot(x: int): int
  {
    -x - 1
  }

  /**
   Python's `x & y` for any integer x and a non-negative y. The result has
   no bit that y lacks, so it is never larger than y.
   (Naming x in the decreases clause keeps the verifier from unrolling the
   definition all the way down whenever y alone is a literal mask.)
   */
  function BitAnd(x: int, y: nat): (r: nat)
    ensures r <= y
    decreases y, x
  {
    if y == 0 then 0
    else 2 * BitAnd(x / 2, y / 2) + (if y % 2 == 1 then x % 2 else 0)
  }

  /** Python's `x | y` for non-negative x and y. */
  function BitOr(x: nat, y: nat): nat
    decreases x + y
  {
    if x == 0 then y
    else if y == 0 then x
    else 2 * BitOr(x / 2, y / 2) + (if y % 2 == 1 then 1 else x % 2)
  }

  /** Python's `x ^ y` for non-negative x and y. */
  function BitXor(x: nat, y: nat): nat
    decreases x + y
  {
    if x == 0 then y
    else if y == 0 then x
    else 2 * BitXor(x / 2, y / 2) + (if y % 2 == 1 then 1 - x % 2 else x % 2)
  }

  // ---------------------------------------------------------------------
  // Arithmetic helpers

  /** Quotient and remainder are unique. */
  lemma DivModUnique(x: int, d: int, q: int, r: int)
    requires d > 0 && 0 <= r < d && x == d * q + r
    ensures x / d == q && x % d == r
  {
    var q', r' := x / d, x % d;
    assert x == d * q' + r';
    if q > q' {
      MulAtLeast(d, q - q');
    } else if q < q' {
      MulAtLeast(d, q' - q);
    }
  }

  /** A positive multiple of d is at least d. */
  lemma MulAtLeast(d: int, e: int)
    requires d > 0 && e >= 1
    ensures d * e >= d
  {
  }

  /** Taking the remainder by 2p is peeling the low bit, then taking the remainder by p. */
  lemma ModDouble(x: int, p: nat)
    requires p > 0
    ensures x % (2 * p) == 2 * ((x / 2) % p) + x % 2
  {
    var h, b := x / 2, x % 2;
    var q, s := h / p, h % p;
    assert h == p * q + s;
    assert x == (2 * p) * q + (2 * s + b);
    DivModUnique(x, 2 * p, q, 2 * s + b);
  }

  // ---------------------------------------------------------------------
  // Bit-level meaning of the operators

  lemma {:induction false} BitOfZero(i: nat)
    ensures !Bit(0, i)
  {
    if i > 0 { BitOfZero(i - 1); }
  }

  /** Bit i of `x & y` is set exactly when it is set in both x and y. */
  lemma {:induction false} BitAndBits(x: int, y: nat, i: nat)
    ensures Bit(BitAnd(x, y), i) == (Bit(x, i) && Bit(y, i))
    decreases i
  {
    if y == 0 {
      BitOfZero(i);
    } else if i > 0 {
      BitAndBits(x / 2, y / 2, i - 1);
    }
  }

  /** Bit i of `x | y` is set exactly when it is set in x or in y. */
  lemma {:induction false} BitOrBits(x: nat, y: nat, i: nat)
    ensures Bit(BitOr(x, y), i) == (Bit(x, i) || Bit(y, i))
    decreases i
  {
    if x == 0 {
      BitOfZero(i);
    } else if y == 0 {
      BitOfZero(i);
    } else if i > 0 {
      BitOrBits(x / 2, y / 2, i - 1);
    }
  }

  /** Bit i of `x ^ y` is set exactly when x and y differ there. */
  lemma {:induction false} BitXorBits(x: nat, y: nat, i: nat)
    ensures Bit(BitXor(x, y), i) == (Bit(x, i) != Bit(y, i))
    decreases i
  {
    if x == 0 {
      BitOfZero(i);
    } else if y == 0 {
      BitOfZero(i);
    } else if i > 0 {
      BitXorBits(x / 2, y / 2, i - 1);
    }
  }

  /** Bit i of `~x` is the complement of bit i of x. */
  lemma {:induction false} BitNotBits(x: int, i: nat)
    ensures Bit(BitNot(x), i) == !Bit(x, i)
    decreases i
  {
    if i > 0 {
      assert BitNot(x) / 2 == BitNot(x / 2);
      BitNotBits(x / 2, i - 1);
    }
  }

  // ---------------------------------------------------------------------
  // Widths

  /** Masking with k one-bits keeps x modulo 2^k: `x & (2**k - 1) == x % 2**k`, negative x included. */
  lemma MaskIsMod(x: int, k: nat)
    ensures BitAnd(x, Pow2(k) - 1) == x % Pow2(k)
  {
    MaskIsLowBits(x, k);
    LowBitsIsMod(x, k);
  }

  /** The k low bits of x, read off one at a time. */
  function LowBits(x: int, k: nat): nat
    decreases k
  {
    if k == 0 then 0 else 2 * LowBits(x / 2, k - 1) + x % 2
  }

  /** Masking with k one-bits keeps exactly the k low bits. */
  lemma {:induction false} MaskIsLowBits(x: int, k: nat)
    ensures BitAnd(x, Pow2(k) - 1) == LowBits(x, k)
    decreases k
  {
    if k > 0 {
      var p := Pow2(k - 1);
      MaskStep(x, p);
      MaskIsLowBits(x / 2, k - 1);
    }
  }

  /** One step of a mask of ones: `x & (2p - 1)` keeps x's low bit and masks the rest with `p - 1`. */
  lemma MaskStep(x: int, p: nat)
    requires p > 0
    ensures BitAnd(x, 2 * p - 1) == 2 * BitAnd(x / 2, p - 1) + x % 2
  {
    var m := 2 * p - 1;
    assert m / 2 == p - 1 && m % 2 == 1;
  }

  /** The k low bits of x are x modulo 2^k. */
  lemma {:induction false} LowBitsIsMod(x: int, k: nat)
    ensures LowBits(x, k) == x % Pow2(k)
    decreases k
  {
    if k > 0 {
      LowBitsIsMod(x / 2, k - 1);
      ModDouble(x, Pow2(k - 1));
    }
  }

  /** `x | y` and `x ^ y` of two k-bit values are k-bit values. */
  lemma {:induction false} OrXorWidth(x: nat, y: nat, k: nat)
    requires x < Pow2(k) && y < Pow2(k)
    ensures BitOr(x, y) < Pow2(k) && BitXor(x, y) < Pow2(k)
    decreases k
  {
    if k > 0 && x > 0 && y > 0 {
      OrXorWidth(x / 2, y / 2, k - 1);
    }
  }

  /** OR-ing a value below 2^k onto x shifted left by k is addition: the bits do not overlap. */
  lemma {:induction false} OrDisjoint(x: nat, y: nat, k: nat)
    requires y < Pow2(k)
    ensures BitOr(ShiftLeft(x, k), y) == ShiftLeft(x, k) + y
    decreases k
  {
    if k > 0 && x > 0 && y > 0 {
      var m := ShiftLeft(x, k - 1);
      assert ShiftLeft(x, k) == 2 * m;
      OrDisjoint(x, y / 2, k - 1);
    }
  }

  /** `(x ^ y) ^ y == x`: XOR with a fixed key undoes itself. */
  lemma {:induction false} XorInvolution(x: nat, y: nat)
    ensures BitXor(BitXor(x, y), y) == x
    decreases x + y
  {
    if x == 0 {
      XorSelf(y);
    } else if y > 0 {
      var w := BitXor(x / 2, y / 2);
      var c := if y % 2 == 1 then 1 - x % 2 else x % 2;
      var z := 2 * w + c;
      assert BitXor(x, y) == z;
      assert z / 2 == w && z % 2 == c;
      XorInvolution(x / 2, y / 2);
      XorUnfold(z, y);
      assert (if y % 2 == 1 then 1 - c else c) == x % 2;
    }
  }

  /** `y ^ y == 0`. */
  lemma {:induction false} XorSelf(y: nat)
    ensures BitXor(y, y) == 0
    decreases y
  {
    if y > 0 { XorSelf(y / 2); }
  }

  /** The recursive step of BitXor holds even where its definition takes a base case. */
  lemma XorUnfold(x: nat, y: nat)
    ensures BitXor(x, y) == 2 * BitXor(x / 2, y / 2) + (if y % 2 == 1 then 1 - x % 2 else x % 2)
  {
  }
}
