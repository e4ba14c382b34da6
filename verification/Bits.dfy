/** Unsigned machine words as natural numbers: shifts, bitwise operators and the
    number of leading zero bits, each defined bit by bit. */
module Bits {

  /** 2 to the power k. */
  function Pow2(k: nat): (p: nat)
    ensures p >= 1
  {
    if k == 0 then 1 else 2 * Pow2(k - 1)
  }

  /** Logical shift to the right by k bits. */
  function Shr(x: nat, k: nat): nat
    decreases k
  {
    if k == 0 then x else Shr(x / 2, k - 1)
  }

  /** Shift to the left by k bits, without dropping any bit. */
  function Shl(x: nat, k: nat): nat {
    if k == 0 then x else 2 * Shl(x, k - 1)
  }

  function Xor(a: nat, b: nat): nat
    decreases a + b
  {
    if a == 0 && b == 0 then 0
    else 2 * Xor(a / 2, b / 2) + (if a % 2 == b % 2 then 0 else 1)
  }

  function And(a: nat, b: nat): nat
    decreases a + b
  {
    if a == 0 && b == 0 then 0
    else 2 * And(a / 2, b / 2) + (if a % 2 == 1 && b % 2 == 1 then 1 else 0)
  }

  /** Number of zero bits above the highest set bit of x in a word of w bits. */
  function LeadingZeros(x: nat, w: nat): (z: nat)
    ensures z <= w
  {
    if w == 0 || x >= Pow2(w - 1) then 0 else 1 + LeadingZeros(x, w - 1)
  }

  lemma {:induction false} Pow2Monotone(i: nat, j: nat)
    requires i <= j
    ensures Pow2(i) <= Pow2(j)
    decreases j
  {
    if i < j { Pow2Monotone(i, j - 1); }
  }

  /** A word has no bit at or above position k exactly when it is below 2^k. */
  lemma {:induction false} ShrIsZeroBelowPow2(x: nat, k: nat)
    ensures Shr(x, k) == 0 <==> x < Pow2(k)
    decreases k
  {
    if k > 0 { ShrIsZeroBelowPow2(x / 2, k - 1); }
  }

  lemma {:induction false} ShlInjective(a: nat, b: nat, k: nat)
    ensures Shl(a, k) == Shl(b, k) <==> a == b
    decreases k
  {
    if k > 0 { ShlInjective(a, b, k - 1); }
  }

  lemma {:induction false} XorShr(a: nat, b: nat, k: nat)
    ensures Shr(Xor(a, b), k) == Xor(Shr(a, k), Shr(b, k))
    decreases k
  {
    if k > 0 {
      XorShr(a / 2, b / 2, k - 1);
      assert Xor(a, b) / 2 == Xor(a / 2, b / 2);
    }
  }

  lemma {:induction false} XorZeroIffEqual(a: nat, b: nat)
    ensures Xor(a, b) == 0 <==> a == b
    decreases a + b
  {
    if a != 0 || b != 0 { XorZeroIffEqual(a / 2, b / 2); }
  }

  /** Two ids at the same distance from one target are the same id. */
  lemma {:induction false} XorCancels(a: nat, b: nat, t: nat)
    ensures Xor(a, t) == Xor(b, t) <==> a == b
    decreases a + b + t
  {
    if a != 0 || b != 0 || t != 0 { XorCancels(a / 2, b / 2, t / 2); }
  }

  lemma {:induction false} XorBound(a: nat, b: nat, k: nat)
    requires a < Pow2(k) && b < Pow2(k)
    ensures Xor(a, b) < Pow2(k)
    decreases k
  {
    if k > 0 && (a != 0 || b != 0) { XorBound(a / 2, b / 2, k - 1); }
  }

  lemma {:induction false} AndShl(a: nat, y: nat, k: nat)
    ensures And(a, Shl(y, k)) == Shl(And(Shr(a, k), y), k)
    decreases k
  {
    if k > 0 {
      AndShl(a / 2, y, k - 1);
      var z := Shl(y, k - 1);
      assert Shl(y, k) == 2 * z;
      assert (2 * z) / 2 == z && (2 * z) % 2 == 0;
      if a == 0 && z == 0 {
        assert And(0, 0) == 0;
      } else {
        assert And(a, 2 * z) == 2 * And(a / 2, z);
      }
    }
  }

  /** Masking with n set bits keeps a word of n bits. */
  lemma {:induction false} AndOnes(y: nat, n: nat)
    requires y < Pow2(n)
    ensures And(y, Pow2(n) - 1) == y
    decreases n
  {
    if n > 0 {
      AndOnes(y / 2, n - 1);
      assert (Pow2(n) - 1) / 2 == Pow2(n - 1) - 1 && (Pow2(n) - 1) % 2 == 1;
    }
  }

  lemma {:induction false} ShrOnes(n: nat, k: nat)
    requires k <= n
    ensures Shr(Pow2(n) - 1, k) == Pow2(n - k) - 1
    decreases k
  {
    if k > 0 {
      assert (Pow2(n) - 1) / 2 == Pow2(n - 1) - 1;
      ShrOnes(n - 1, k - 1);
    }
  }

  lemma {:induction false} ShrBound(x: nat, n: nat, k: nat)
    requires x < Pow2(n) && k <= n
    ensures Shr(x, k) < Pow2(n - k)
    decreases k
  {
    if k > 0 { ShrBound(x / 2, n - 1, k - 1); }
  }

  /** The n high bits of a w bit word, all others cleared by a mask shifted down and up again. */
  function HighBits(x: nat, w: nat, n: nat): nat
    requires n <= w
  {
    And(x, Shl(Shr(Pow2(w) - 1, w - n), w - n))
  }

  lemma {:induction false} MaskKeepsHighBits(x: nat, w: nat, n: nat)
    requires x < Pow2(w) && n <= w
    ensures HighBits(x, w, n) == Shl(Shr(x, w - n), w - n)
  {
    ShrOnes(w, w - n);
    AndShl(x, Pow2(n) - 1, w - n);
    ShrBound(x, w, w - n);
    AndOnes(Shr(x, w - n), n);
  }

  /** Two words agree in their n high bits exactly when they differ by less than 2^(w-n). */
  lemma {:induction false} SameHighBits(a: nat, b: nat, w: nat, n: nat)
    requires a < Pow2(w) && b < Pow2(w) && n <= w
    ensures HighBits(a, w, n) == HighBits(b, w, n) <==> Xor(a, b) < Pow2(w - n)
  {
    var k := w - n;
    MaskKeepsHighBits(a, w, n);
    MaskKeepsHighBits(b, w, n);
    ShlInjective(Shr(a, k), Shr(b, k), k);
    XorZeroIffEqual(Shr(a, k), Shr(b, k));
    XorShr(a, b, k);
    ShrIsZeroBelowPow2(Xor(a, b), k);
  }

  /** The leading zeros count measures magnitude: at least n of them exactly when x < 2^(w-n). */
  lemma {:induction false} LeadingZerosAtLeast(x: nat, w: nat, n: nat)
    requires n <= w && x < Pow2(w)
    ensures LeadingZeros(x, w) >= n <==> x < Pow2(w - n)
    decreases w
  {
    if w > 0 {
      if x < Pow2(w - 1) {
        if n > 0 { LeadingZerosAtLeast(x, w - 1, n - 1); }
      } else if n > 0 {
        Pow2Monotone(w - n, w - 1);
      }
    }
  }

  /** Padding a word with high zero bits adds exactly that many leading zeros. */
  lemma {:induction false} LeadingZerosPadding(x: nat, w: nat, extra: nat)
    requires x < Pow2(w)
    ensures LeadingZeros(x, w + extra) == LeadingZeros(x, w) + extra
    decreases extra
  {
    if extra > 0 {
      Pow2Monotone(w, w + extra - 1);
      LeadingZerosPadding(x, w, extra - 1);
    }
  }

  lemma {:induction false} ShrStep(x: nat, k: nat)
    ensures Shr(x, k + 1) == Shr(x, k) / 2
    decreases k
  {
    if k > 0 { ShrStep(x / 2, k - 1); }
  }

  lemma {:induction false} ShrMonotone(x: nat, y: nat, k: nat)
    requires x <= y
    ensures Shr(x, k) <= Shr(y, k)
    decreases k
  {
    if k > 0 { ShrMonotone(x / 2, y / 2, k - 1); }
  }

  /** Of two words equal above bit k and different in it, the one that has the bit of t is nearer to t. */
  lemma {:induction false} NearerHasTheBit(a: nat, b: nat, t: nat, k: nat)
    requires Shr(a, k) / 2 == Shr(b, k) / 2 && Shr(a, k) % 2 != Shr(b, k) % 2
    ensures Xor(a, t) < Xor(b, t) <==> Shr(a, k) % 2 == Shr(t, k) % 2
  {
    XorShr(a, t, k);
    XorShr(b, t, k);
    var x, y, z := Shr(a, k), Shr(b, k), Shr(t, k);
    XorStep(x, z);
    XorStep(y, z);
    if Xor(b, t) <= Xor(a, t) { ShrMonotone(Xor(b, t), Xor(a, t), k); }
    if Xor(a, t) <= Xor(b, t) { ShrMonotone(Xor(a, t), Xor(b, t), k); }
  }

  lemma {:induction false} XorStep(a: nat, b: nat)
    ensures Xor(a, b) == 2 * Xor(a / 2, b / 2) + (if a % 2 == b % 2 then 0 else 1)
  {
  }

  lemma {:induction false} XorDoubled(a: nat, b: nat)
    ensures Xor(2 * a, 2 * b) == 2 * Xor(a, b)
  {
    XorStep(2 * a, 2 * b);
    assert 2 * a / 2 == a && 2 * b / 2 == b;
  }

  lemma {:induction false} XorShl(a: nat, b: nat, k: nat)
    ensures Xor(Shl(a, k), Shl(b, k)) == Shl(Xor(a, b), k)
  {
    if k > 0 {
      XorShl(a, b, k - 1);
      XorDoubled(Shl(a, k - 1), Shl(b, k - 1));
    }
  }

  lemma {:induction false} ShlIsProduct(x: nat, k: nat)
    ensures Shl(x, k) == x * Pow2(k)
  {
    if k > 0 { ShlIsProduct(x, k - 1); }
  }

  lemma {:induction false} XorWithZero(x: nat)
    ensures Xor(x, 0) == x && Xor(0, x) == x
  {
    if x > 0 { XorWithZero(x / 2); }
  }
}
