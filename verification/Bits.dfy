/** C's unsigned arithmetic: shifts, the low bits that a width keeps, and the bitwise
    operators, all defined one bit at a time so that proofs about them stay linear. */
module Bits {

  function Pow2(n: nat): (r: nat)
    ensures r > 0
  {
    if n == 0 then 1 else 2 * Pow2(n - 1)
  }

  /** `a << k`, before it is cut to a width. */
  function Shl(a: nat, k: nat): nat {
    if k == 0 then a else 2 * Shl(a, k - 1)
  }

  /** `a >> k` on an unsigned operand. */
  function Shr(a: nat, k: nat): nat {
    if k == 0 then a else Shr(a / 2, k - 1)
  }

  /** The low `k` bits of `a` in two's complement: what converting `a` to an unsigned
      type of `k` bits leaves. */
  function Low(a: int, k: nat): nat
    decreases k
  {
    if k == 0 then 0 else a % 2 + 2 * Low(a / 2, k - 1)
  }

  function XorBit(a: nat, b: nat): nat { if a % 2 == b % 2 then 0 else 1 }
  function AndBit(a: nat, b: nat): nat { if a % 2 == 1 && b % 2 == 1 then 1 else 0 }
  function OrBit(a: nat, b: nat): nat { if a % 2 == 1 || b % 2 == 1 then 1 else 0 }

  /** `a ^ b` */
  function Xor(a: nat, b: nat): nat
    decreases a + b
  {
    if a == 0 && b == 0 then 0 else XorBit(a, b) + 2 * Xor(a / 2, b / 2)
  }

  /** `a & b` */
  function And(a: nat, b: nat): nat
    decreases a + b
  {
    if a == 0 || b == 0 then 0 else AndBit(a, b) + 2 * And(a / 2, b / 2)
  }

  /** `a | b` */
  function Or(a: nat, b: nat): nat
    decreases a + b
  {
    if a == 0 then b else if b == 0 then a else OrBit(a, b) + 2 * Or(a / 2, b / 2)
  }

  // ---- powers of two and the low bits ----

  lemma {:induction false} Pow2Monotone(a: nat, b: nat)
    requires a <= b
    ensures Pow2(a) <= Pow2(b)
    decreases b
  {
    if a < b { Pow2Monotone(a, b - 1); }
  }

  lemma {:induction false} Pow2StrictlyMonotone(a: nat, b: nat)
    requires a < b
    ensures 2 * Pow2(a) <= Pow2(b)
  {
    Pow2Monotone(a + 1, b);
  }

  lemma {:induction false} LowSplit(a: int, k: nat)
    requires k > 0
    ensures Low(a, k) % 2 == a % 2 && Low(a, k) / 2 == Low(a / 2, k - 1)
  {}

  lemma {:induction false} LowBelow(a: int, k: nat)
    ensures Low(a, k) < Pow2(k)
    decreases k
  {
    if k > 0 { LowBelow(a / 2, k - 1); }
  }

  lemma {:induction false} LowOfSmall(a: nat, k: nat)
    requires a < Pow2(k)
    ensures Low(a, k) == a
  {
    if k > 0 { LowOfSmall(a / 2, k - 1); }
  }

  lemma {:induction false} LowLow(a: int, k: nat, w: nat)
    requires k <= w
    ensures Low(Low(a, w), k) == Low(a, k)
    decreases k
  {
    if k > 0 { LowLow(a / 2, k - 1, w - 1); }
  }

  /** The low bits of a sum depend on the low bits of a summand only. */
  lemma {:induction false} LowAdd(a: int, b: int, k: nat)
    ensures Low(Low(a, k) + b, k) == Low(a + b, k)
    decreases k
  {
    if k > 0 {
      LowSplit(a, k);
      hide Low;
      HalfOfSum(a, b);
      HalfOfSum(Low(a, k), b);
      LowAdd(a / 2, b / 2 + (a % 2 + b % 2) / 2, k - 1);
      LowAgrees(Low(a, k) + b, a + b, k);
    }
  }

  lemma {:induction false} LowAgrees(x: int, y: int, k: nat)
    requires k > 0 && x % 2 == y % 2 && Low(x / 2, k - 1) == Low(y / 2, k - 1)
    ensures Low(x, k) == Low(y, k)
  {}

  lemma {:induction false} HalfOfSum(a: int, b: int)
    ensures (a + b) / 2 == a / 2 + (b / 2 + (a % 2 + b % 2) / 2)
    ensures (a + b) % 2 == (a % 2 + b % 2) % 2
  {}

  /** Adding the same number is injective on the low bits. */
  lemma {:induction false} LowAddInjective(x: int, y: int, s: int, k: nat)
    requires Low(x + s, k) == Low(y + s, k)
    ensures Low(x, k) == Low(y, k)
    decreases k
  {
    if k > 0 {
      assert (x + s) % 2 == (y + s) % 2;
      assert x % 2 == y % 2;
      var t := s / 2 + (x % 2 + s % 2) / 2;
      assert (x + s) / 2 == x / 2 + t;
      assert (y + s) / 2 == y / 2 + t;
      LowAddInjective(x / 2, y / 2, t, k - 1);
    }
  }

  // ---- shifts ----

  lemma {:induction false} ShrBelow(a: nat, l: nat, r: nat)
    requires a < Pow2(l + r)
    ensures Shr(a, r) < Pow2(l)
    decreases r
  {
    if r > 0 { ShrBelow(a / 2, l, r - 1); }
  }

  lemma {:induction false} SplitAt(a: nat, k: nat)
    ensures a == Shl(Shr(a, k), k) + Low(a, k)
  {
    if k > 0 { SplitAt(a / 2, k - 1); }
  }

  lemma {:induction false} JoinUnique(a: nat, x: nat, b: nat, y: nat, k: nat)
    requires x < Pow2(k) && y < Pow2(k) && Shl(a, k) + x == Shl(b, k) + y
    ensures a == b && x == y
    decreases k
  {
    if k > 0 {
      var s, t := Shl(a, k - 1), Shl(b, k - 1);
      assert 2 * s + x == 2 * t + y;
      assert x % 2 == y % 2 && s + x / 2 == t + y / 2;
      JoinUnique(a, x / 2, b, y / 2, k - 1);
    }
  }

  lemma {:induction false} LowOfShl(a: nat, l: nat, r: nat)
    ensures Low(Shl(a, l), l + r) == Shl(Low(a, r), l)
    decreases l
  {
    if l > 0 {
      LowOfShl(a, l - 1, r);
      assert Shl(a, l) / 2 == Shl(a, l - 1);
    }
  }

  // ---- bitwise operators ----

  lemma {:induction false} XorSplit(a: nat, b: nat)
    ensures Xor(a, b) % 2 == XorBit(a, b) && Xor(a, b) / 2 == Xor(a / 2, b / 2)
  {}

  lemma {:induction false} OrSplit(a: nat, b: nat)
    ensures Or(a, b) % 2 == OrBit(a, b) && Or(a, b) / 2 == Or(a / 2, b / 2)
  {}

  lemma {:induction false} AndSplit(a: nat, b: nat)
    ensures And(a, b) % 2 == AndBit(a, b) && And(a, b) / 2 == And(a / 2, b / 2)
  {}

  lemma {:induction false} XorZero(a: nat)
    ensures Xor(a, 0) == a
  {
    if a > 0 { XorZero(a / 2); }
  }

  lemma {:induction false} XorCancels(a: nat, b: nat)
    ensures Xor(Xor(a, b), b) == a
    decreases a + b
  {
    if a > 0 || b > 0 {
      XorSplit(a, b);
      XorSplit(Xor(a, b), b);
      XorCancels(a / 2, b / 2);
    }
  }

  lemma {:induction false} XorCommutes(a: nat, b: nat)
    ensures Xor(a, b) == Xor(b, a)
    decreases a + b
  {
    if a > 0 || b > 0 { XorCommutes(a / 2, b / 2); }
  }

  lemma {:induction false} XorLow(a: nat, b: nat, k: nat)
    ensures Low(Xor(a, b), k) == Xor(Low(a, k), Low(b, k))
    decreases k
  {
    if k > 0 {
      LowSplit(Xor(a, b), k);
      LowSplit(a, k);
      LowSplit(b, k);
      hide Low;
      XorSplit(a, b);
      XorSplit(Low(a, k), Low(b, k));
      XorLow(a / 2, b / 2, k - 1);
    }
  }

  lemma {:induction false} OrLow(a: nat, b: nat, k: nat)
    ensures Low(Or(a, b), k) == Or(Low(a, k), Low(b, k))
    decreases k
  {
    if k > 0 {
      LowSplit(Or(a, b), k);
      LowSplit(a, k);
      LowSplit(b, k);
      hide Low;
      OrSplit(a, b);
      OrSplit(Low(a, k), Low(b, k));
      OrLow(a / 2, b / 2, k - 1);
    }
  }

  /** Masking with `2^k - 1` keeps the low `k` bits. */
  lemma {:induction false} AndMask(a: nat, k: nat)
    ensures And(a, Pow2(k) - 1) == Low(a, k)
    decreases k
  {
    if k > 0 {
      AndSplit(a, Pow2(k) - 1);
      assert (Pow2(k) - 1) / 2 == Pow2(k - 1) - 1;
      AndMask(a / 2, k - 1);
    }
  }

  /** Operands with no bit in common: `|` adds. */
  lemma {:induction false} OrAdds(hi: nat, lo: nat, k: nat)
    requires lo < Pow2(k)
    ensures Or(Shl(hi, k), lo) == Shl(hi, k) + lo
    decreases k
  {
    if k > 0 {
      OrSplit(Shl(hi, k), lo);
      assert Shl(hi, k) / 2 == Shl(hi, k - 1);
      OrAdds(hi, lo / 2, k - 1);
    }
  }

  /** Clearing the low `g` of `n` bits. */
  lemma {:induction false} AndClearsLow(x: nat, n: nat, g: nat)
    requires x < Pow2(n) && g <= n
    ensures Pow2(g) <= Pow2(n)
    ensures And(x, Pow2(n) - Pow2(g)) == x - Low(x, g)
    decreases g
  {
    hide And;
    Pow2Monotone(g, n);
    if g == 0 {
      AndMask(x, n);
      LowOfSmall(x, n);
    } else {
      LowSplit(x, g);
      var p, q := Pow2(n - 1), Pow2(g - 1);
      assert Pow2(n) == 2 * p && Pow2(g) == 2 * q;
      AndClearsLow(x / 2, n - 1, g - 1);
      hide Low, Pow2;
      AndSplit(x, 2 * (p - q));
    }
  }

  /** Setting the low `g` bits of a number whose low `g` bits are clear. */
  lemma {:induction false} OrSetsLow(x: nat, g: nat)
    ensures Low(x, g) <= x
    ensures Or(x - Low(x, g), Pow2(g) - 1) == x - Low(x, g) + Pow2(g) - 1
  {
    SplitAt(x, g);
    OrAdds(Shr(x, g), Pow2(g) - 1, g);
  }

  lemma {:induction false} LowOfJoin(w: nat, x: nat, m: nat, h: nat)
    requires h <= m
    ensures Low(Shl(w, m) + x, h) == Low(x, h)
    decreases h
  {
    if h > 0 {
      assert (Shl(w, m) + x) / 2 == Shl(w, m - 1) + x / 2;
      LowOfJoin(w, x / 2, m - 1, h - 1);
    }
  }

  lemma {:induction false} ShrOfJoin(w: nat, x: nat, m: nat)
    requires x < Pow2(m)
    ensures Shr(Shl(w, m) + x, m) == w
    decreases m
  {
    if m > 0 {
      assert (Shl(w, m) + x) / 2 == Shl(w, m - 1) + x / 2;
      ShrOfJoin(w, x / 2, m - 1);
    }
  }

  lemma {:induction false} LowPastJoin(w: nat, x: nat, m: nat, k: nat)
    requires x < Pow2(m)
    ensures Low(Shl(w, m) + x, m + k) == Shl(Low(w, k), m) + x
    decreases m
  {
    if m > 0 {
      assert (Shl(w, m) + x) / 2 == Shl(w, m - 1) + x / 2;
      LowPastJoin(w, x / 2, m - 1, k);
    }
  }

  lemma {:induction false} LowOfOnes(n: nat, r: nat)
    requires r <= n
    ensures Low(Pow2(n) - 1, r) == Pow2(r) - 1
    decreases r
  {
    if r > 0 {
      var m := Pow2(n - 1);
      assert Pow2(n) == 2 * m && Pow2(r) == 2 * Pow2(r - 1);
      LowSplit(Pow2(n) - 1, r);
      LowOfOnes(n - 1, r - 1);
      hide *;
      assert (2 * m - 1) / 2 == m - 1;
    }
  }

  lemma {:induction false} ShlOfOnes(r: nat, g: nat)
    ensures Shl(Pow2(r) - 1, g) == Pow2(r + g) - Pow2(g)
    decreases g
  {
    if g > 0 { ShlOfOnes(r, g - 1); }
  }

  /** Ones shifted up by `g` inside a width of `n` bits. */
  lemma {:induction false} LowOfShiftedOnes(n: nat, g: nat)
    requires g <= n
    ensures Low(Shl(Pow2(n) - 1, g), n) == Pow2(n) - Pow2(g)
  {
    LowOfShl(Pow2(n) - 1, g, n - g);
    LowOfOnes(n, n - g);
    ShlOfOnes(n - g, g);
  }

  // ---- single bits ----

  predicate Bit(a: nat, j: nat) {
    Shr(a, j) % 2 == 1
  }

  /** `a & (1 << j)` tests bit `j`. */
  lemma {:induction false} AndTestsBit(a: nat, j: nat)
    ensures And(a, Pow2(j)) == 0 <==> Shr(a, j) % 2 == 0
    decreases j
  {
    AndSplit(a, Pow2(j));
    if j == 0 {
      AndZero(a / 2);
    } else {
      AndTestsBit(a / 2, j - 1);
    }
  }

  lemma {:induction false} AndZero(a: nat)
    ensures And(a, 0) == 0
  {}

  /** The bits of `2^n - 2^h`: ones from `h` up. */
  lemma {:induction false} BitsOfMask(n: nat, h: nat, j: nat)
    requires h <= n && j < n
    ensures Pow2(h) <= Pow2(n)
    ensures Shr(Pow2(n) - Pow2(h), j) % 2 == 1 <==> h <= j
    decreases j
  {
    Pow2Monotone(h, n);
    if j > 0 {
      if h > 0 {
        assert (Pow2(n) - Pow2(h)) / 2 == Pow2(n - 1) - Pow2(h - 1);
        BitsOfMask(n - 1, h - 1, j - 1);
      } else {
        assert (Pow2(n) - 1) / 2 == Pow2(n - 1) - Pow2(0);
        BitsOfMask(n - 1, 0, j - 1);
      }
    }
  }

  lemma {:induction false} ShrZero(k: nat)
    ensures Shr(0, k) == 0
  {
    if k > 0 { ShrZero(k - 1); }
  }

  lemma {:induction false} ShrShr(a: nat, h: nat, k: nat)
    ensures Shr(Shr(a, h), k) == Shr(a, h + k)
    decreases h
  {
    if h > 0 { ShrShr(a / 2, h - 1, k); }
  }

  /** Aligned blocks `[x * 2^h, (x + 1) * 2^h)`: one lies inside another exactly when it is no
      larger and has the other's leading bits. */
  lemma {:induction false} BlockInside(x: nat, h: nat, y: nat, k: nat)
    ensures Shl(y, k) >= Shl(x, h) && Shl(y, k) + Pow2(k) <= Shl(x, h) + Pow2(h)
            <==> k <= h && Shr(y, h - k) == x
    decreases k
  {
    if k > h {
      Pow2StrictlyMonotone(h, k);
    } else if k > 0 {
      BlockInside(x, h - 1, y, k - 1);
    } else {
      var q, r := Shr(y, h), Low(y, h);
      SplitAt(y, h);
      LowBelow(y, h);
      ShlOrder(q, x, h);
    }
  }

  /** Distinct aligned blocks of one size do not overlap. */
  lemma {:induction false} ShlOrder(a: nat, b: nat, h: nat)
    ensures a < b ==> Shl(a, h) + Pow2(h) <= Shl(b, h)
    ensures b < a ==> Shl(b, h) + Pow2(h) <= Shl(a, h)
  {
    if h > 0 { ShlOrder(a, b, h - 1); }
  }

  lemma {:induction false} BitFromLow(a: nat, j: nat, k: nat)
    requires j < k
    ensures Shr(a, j) % 2 == Shr(Low(a, k), j) % 2
    decreases j
  {
    LowSplit(a, k);
    hide Low;
    if j > 0 { BitFromLow(a / 2, j - 1, k - 1); }
  }

  lemma {:induction false} Shr8(a: nat)
    ensures Shr(a, 8) == a / 256
  {
    Shr2(a, 6);
    Shr2(a / 4, 4);
    Shr2(a / 16, 2);
    Shr2(a / 64, 0);
  }

  lemma {:induction false} Shr2(a: nat, k: nat)
    ensures Shr(a, k + 2) == Shr(a / 4, k)
  {
    assert a / 2 / 2 == a / 4;
  }

  /** A number of `n` bits that are all ones. */
  lemma {:induction false} OnlyOnes(x: nat, n: nat)
    requires x < Pow2(n) && forall j :: 0 <= j < n ==> Shr(x, j) % 2 == 1
    ensures x == Pow2(n) - 1
    decreases n
  {
    if n > 0 {
      assert Shr(x, 0) % 2 == 1;
      assert forall j :: 0 <= j < n - 1 ==> Shr(x / 2, j) == Shr(x, j + 1);
      OnlyOnes(x / 2, n - 1);
    }
  }

  lemma {:induction false} ShrMonotone(a: nat, b: nat, k: nat)
    requires a <= b
    ensures Shr(a, k) <= Shr(b, k)
    decreases k
  {
    if k > 0 { ShrMonotone(a / 2, b / 2, k - 1); }
  }

  /** Two numbers have the same high parts exactly when they have the same high bits. */
  lemma {:induction false} ShrEqualIffBits(a: nat, b: nat, k: nat, n: nat)
    requires k <= n && a < Pow2(n) && b < Pow2(n)
    ensures Shr(a, k) == Shr(b, k) <==> forall i :: k <= i < n ==> Bit(a, i) == Bit(b, i)
    decreases n - k
  {
    if k == n {
      ShrBelow(a, 0, k);
      ShrBelow(b, 0, k);
    } else {
      Shr1(a, k);
      Shr1(b, k);
      ShrEqualIffBits(a, b, k + 1, n);
      HighBitFollows(a, b, k, n);
      assert Bit(a, k) == (Shr(a, k) % 2 == 1) && Bit(b, k) == (Shr(b, k) % 2 == 1);
    }
  }

  lemma {:induction false} HighBitFollows(a: nat, b: nat, k: nat, n: nat)
    ensures Shr(a, k) == Shr(b, k) ==> forall i :: k <= i < n ==> Bit(a, i) == Bit(b, i)
  {
    forall i | Shr(a, k) == Shr(b, k) && k <= i < n
      ensures Bit(a, i) == Bit(b, i)
    {
      ShrShr(a, k, i - k);
      ShrShr(b, k, i - k);
    }
  }

  lemma {:induction false} Shr1(a: nat, k: nat)
    ensures Shr(a, k + 1) == Shr(a, k) / 2
  {
    ShrShr(a, k, 1);
    assert Shr(Shr(a, k), 1) == Shr(a, k) / 2;
  }
}
