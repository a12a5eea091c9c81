/** Bitwise operators of C on non-negative integers.  The kernel's masks, shifts and
    single-bit tests are written with these, and each idiom that the source uses is tied
    to its arithmetic meaning here. */
module Bits {

  function Pow2(k: nat): (r: nat)
    ensures r >= 1
  {
    if k == 0 then 1 else 2 * Pow2(k - 1)
  }

  function Digit(b: bool): nat { if b then 1 else 0 }

  function BitAnd(x: nat, y: nat): nat
  {
    if x == 0 || y == 0 then 0
    else Digit(x % 2 == 1 && y % 2 == 1) + 2 * BitAnd(x / 2, y / 2)
  }

  function BitOr(x: nat, y: nat): nat
    decreases x + y
  {
    if x == 0 then y else if y == 0 then x
    else Digit(x % 2 == 1 || y % 2 == 1) + 2 * BitOr(x / 2, y / 2)
  }

  function BitXor(x: nat, y: nat): nat
    decreases x + y
  {
    if x == 0 then y else if y == 0 then x
    else Digit(x % 2 != y % 2) + 2 * BitXor(x / 2, y / 2)
  }

  /** Is bit `j` of `w` set? */
  predicate Bit(w: nat, j: nat)
  {
    if j == 0 then w % 2 == 1 else Bit(w / 2, j - 1)
  }

  /** Number of significant bits: the word width minus the count of leading zeros. */
  function BitLength(n: nat): nat
  {
    if n == 0 then 0 else 1 + BitLength(n / 2)
  }

  // ---- single bits -----------------------------------------------------------------

  lemma {:induction false} BitOfZero(j: nat)
    ensures !Bit(0, j)
  {
    if j > 0 { BitOfZero(j - 1); }
  }

  lemma {:induction false} BitOfOr(x: nat, y: nat, j: nat)
    ensures Bit(BitOr(x, y), j) <==> Bit(x, j) || Bit(y, j)
  {
    if x == 0 || y == 0 {
      BitOfZero(j);
    } else if j > 0 {
      BitOfOr(x / 2, y / 2, j - 1);
    }
  }

  lemma {:induction false} BitOfAnd(x: nat, y: nat, j: nat)
    ensures Bit(BitAnd(x, y), j) <==> Bit(x, j) && Bit(y, j)
  {
    if x == 0 || y == 0 {
      BitOfZero(j);
    } else if j > 0 {
      BitOfAnd(x / 2, y / 2, j - 1);
    }
  }

  lemma {:induction false} BitOfPow2(k: nat, j: nat)
    ensures Bit(Pow2(k), j) <==> j == k
  {
    if k == 0 {
      if j > 0 { BitOfZero(j - 1); }
    } else if j > 0 {
      BitOfPow2(k - 1, j - 1);
    }
  }

  /** Complementing an n-bit word flips each of its n bits. */
  lemma {:induction false} BitOfComplement(x: nat, n: nat, j: nat)
    requires x < Pow2(n) && j < n
    ensures Bit(Pow2(n) - 1 - x, j) <==> !Bit(x, j)
  {
    HalfComplement(x, Pow2(n - 1));
    if j > 0 { BitOfComplement(x / 2, n - 1, j - 1); }
  }

  lemma HalfComplement(x: nat, p: nat)
    requires x < 2 * p
    ensures 0 <= x / 2 < p && (2 * p - 1 - x) / 2 == p - 1 - x / 2
    ensures (2 * p - 1 - x) % 2 == 1 - x % 2
  {}

  /** `w & (1 << j)` is non-zero exactly when bit j is set. */
  lemma {:induction false} AndOneBit(w: nat, j: nat)
    ensures BitAnd(w, Pow2(j)) != 0 <==> Bit(w, j)
  {
    if w == 0 {
      BitOfZero(j);
    } else if j == 0 {
      assert BitAnd(w / 2, 0) == 0;
    } else {
      AndOneBit(w / 2, j - 1);
    }
  }

  /** An n-bit word other than all ones has a clear bit. */
  lemma {:induction false} HasClearBit(w: nat, n: nat) returns (j: nat)
    requires w < Pow2(n) - 1
    ensures j < n && !Bit(w, j)
  {
    if w % 2 == 0 {
      j := 0;
    } else {
      var i := HasClearBit(w / 2, n - 1);
      j := i + 1;
    }
  }

  /** Every bit of all ones is set. */
  lemma OnesBit(n: nat, j: nat)
    requires j < n
    ensures Bit(Pow2(n) - 1, j)
  {
    BitOfComplement(0, n, j);
    BitOfZero(j);
  }

  lemma {:induction false} OrBound(x: nat, y: nat, n: nat)
    requires x < Pow2(n) && y < Pow2(n)
    ensures BitOr(x, y) < Pow2(n)
  {
    if x != 0 && y != 0 { OrBound(x / 2, y / 2, n - 1); }
  }

  lemma {:induction false} XorBound(x: nat, y: nat, n: nat)
    requires x < Pow2(n) && y < Pow2(n)
    ensures BitXor(x, y) < Pow2(n)
  {
    if x != 0 && y != 0 { XorBound(x / 2, y / 2, n - 1); }
  }

  lemma {:induction false} AndBound(x: nat, y: nat)
    ensures BitAnd(x, y) <= x && BitAnd(x, y) <= y
  {
    if x != 0 && y != 0 { AndBound(x / 2, y / 2); }
  }

  lemma {:induction false} Pow2Monotone(a: nat, b: nat)
    requires a <= b
    ensures Pow2(a) <= Pow2(b)
    decreases b
  {
    if a < b { Pow2Monotone(a, b - 1); }
  }

  lemma Pow2Values()
    ensures Pow2(8) == 0x100 && Pow2(12) == 0x1000 && Pow2(16) == 0x1_0000
    ensures Pow2(20) == 0x10_0000 && Pow2(32) == 0x1_0000_0000
  {
    assert Pow2(4) == 0x10;
    assert Pow2(8) == 0x100;
    assert Pow2(12) == 0x1000;
    assert Pow2(16) == 0x1_0000;
    assert Pow2(20) == 0x10_0000;
    assert Pow2(24) == 0x100_0000;
    assert Pow2(28) == 0x1000_0000;
  }

  /** AND goes digit by digit. */
  lemma AndDigits(a: nat, i: nat, b: nat, j: nat)
    requires i < 2 && j < 2
    ensures BitAnd(2 * a + i, 2 * b + j) == 2 * BitAnd(a, b) + (if i == 1 && j == 1 then 1 else 0)
  {
    assert (2 * a + i) / 2 == a && (2 * b + j) / 2 == b;
    assert (2 * a + i) % 2 == i && (2 * b + j) % 2 == j;
  }

  // ---- masks -----------------------------------------------------------------------

  /** `x & (2^k - 1)` keeps the low k bits. */
  lemma {:induction false} AndLowMask(x: nat, k: nat)
    ensures BitAnd(x, Pow2(k) - 1) == x % Pow2(k)
  {
    if k > 0 {
      var p := Pow2(k - 1);
      AndLowMask(x / 2, k - 1);
      LowMaskStep(x, p);
    }
  }

  lemma LowMaskStep(x: nat, p: nat)
    requires p >= 1 && BitAnd(x / 2, p - 1) == x / 2 % p
    ensures BitAnd(x, 2 * p - 1) == x % (2 * p)
  {
    hide BitAnd;
    HalfMod(x, p);
    AndDigits(x / 2, x % 2, p - 1, 1);
    assert x == 2 * (x / 2) + x % 2 && 2 * p - 1 == 2 * (p - 1) + 1;
  }

  lemma HalfMod(x: nat, p: nat)
    requires p >= 1
    ensures x % (2 * p) == x % 2 + 2 * ((x / 2) % p)
  {
    var q, r := (x / 2) / p, (x / 2) % p;
    assert x / 2 == q * p + r;
    assert x == (2 * p) * q + (x % 2 + 2 * r);
    DivModUnique(x, 2 * p, q, x % 2 + 2 * r);
  }

  lemma DivModUnique(x: nat, d: nat, q: nat, r: nat)
    requires d >= 1 && x == d * q + r && r < d
    ensures x / d == q && x % d == r
  {
    var z := x / d - q;
    assert d * z == r - x % d;
    assert z >= 1 ==> d * z >= d;
    assert z <= -1 ==> d * z + d <= 0;
  }

  /** ANDing with `q - p` clears what is below p. */
  predicate MasksBelow(x: nat, p: nat, q: nat)
  {
    1 <= p <= q && BitAnd(x, q - p) == x - x % p
  }

  /** `x & ~(2^k - 1)`, on words of k + n bits, rounds down to a multiple of 2^k. */
  lemma {:induction false} AndHighMask(x: nat, k: nat, n: nat)
    requires x < Pow2(k + n)
    ensures MasksBelow(x, Pow2(k), Pow2(k + n))
  {
    if k == 0 {
      AndLowMask(x, n);
      SmallMod(x, Pow2(n));
    } else {
      hide MasksBelow;
      HalfBound(x, Pow2(k - 1 + n));
      AndHighMask(x / 2, k - 1, n);
      MaskStep(x, Pow2(k - 1), Pow2(k - 1 + n));
    }
  }

  lemma HalfBound(x: nat, q: nat)
    requires x < 2 * q
    ensures 0 <= x / 2 < q
  {}

  lemma MaskStep(x: nat, p: nat, q: nat)
    requires x < 2 * q && MasksBelow(x / 2, p, q)
    ensures MasksBelow(x, 2 * p, 2 * q)
  {
    hide BitAnd;
    AndEven(x, q - p);
    HalfMod(x, p);
    assert 2 * q - 2 * p == 2 * (q - p);
  }

  lemma AndEven(x: nat, m: nat)
    ensures BitAnd(x, 2 * m) == 2 * BitAnd(x / 2, m)
  {
    AndDigits(x / 2, x % 2, m, 0);
    assert x == 2 * (x / 2) + x % 2;
  }

  lemma SmallMod(x: nat, p: nat)
    requires x < p
    ensures x % p == x
  {}

  lemma {:induction false} OrCommutes(x: nat, y: nat)
    ensures BitOr(x, y) == BitOr(y, x)
    decreases x + y
  {
    if x != 0 && y != 0 { OrCommutes(x / 2, y / 2); }
  }

  /** OR of a value below 2^k with a multiple of 2^k is addition. */
  lemma {:induction false} OrDisjoint(x: nat, y: nat, k: nat)
    requires x < Pow2(k)
    ensures BitOr(x, y * Pow2(k)) == x + y * Pow2(k)
  {
    if k > 0 && x > 0 && y > 0 {
      var z := y * Pow2(k);
      assert z == 2 * (y * Pow2(k - 1));
      OrDisjoint(x / 2, y, k - 1);
    }
  }

  // ---- powers of two ---------------------------------------------------------------

  lemma {:induction false} AndSelf(x: nat)
    ensures BitAnd(x, x) == x
  {
    if x > 0 { AndSelf(x / 2); }
  }

  lemma {:induction false} BitLengthBounds(n: nat)
    requires n > 0
    ensures BitLength(n) >= 1
    ensures Pow2(BitLength(n) - 1) <= n < Pow2(BitLength(n))
  {
    if n > 1 { BitLengthBounds(n / 2); }
  }

  /** `n & (n - 1)` is zero exactly when n is a power of two. */
  lemma {:induction false} AndPredecessor(n: nat)
    requires n > 0
    ensures BitLength(n) >= 1
    ensures BitAnd(n, n - 1) == 0 <==> n == Pow2(BitLength(n) - 1)
  {
    if n > 1 {
      var h := n / 2;
      var l := BitLength(h);
      AndPredecessor(h);
      assert BitLength(n) == l + 1 && Pow2(l) == 2 * Pow2(l - 1);
      if n % 2 == 1 {
        AndDigits(h, 1, h, 0);
        AndSelf(h);
        assert BitAnd(n, n - 1) == 2 * h;
      } else {
        AndDigits(h, 0, h - 1, 1);
        assert BitAnd(n, n - 1) == 2 * BitAnd(h, h - 1);
      }
    }
  }
}
