/** Unsigned machine words as natural numbers: the bitwise operators of C,
    defined bit by bit, and what each of them does to bit `k`. */
module Bits {
  function Pow2(k: nat): (r: nat)
    ensures r >= 1
  {
    if k == 0 then 1 else 2 * Pow2(k - 1)
  }

  function ShiftUp(n: nat, k: nat): nat { n * Pow2(k) }

  /** Bit `k` of `n`, counting from the least significant. */
  predicate Bit(n: nat, k: nat) {
    if k == 0 then n % 2 == 1 else Bit(n / 2, k - 1)
  }

  function And(a: nat, b: nat): nat {
    if a == 0 || b == 0 then 0
    else 2 * And(a / 2, b / 2) + (if a % 2 == 1 && b % 2 == 1 then 1 else 0)
  }

  function Or(a: nat, b: nat): nat
    decreases a + b
  {
    if a + b == 0 then 0
    else 2 * Or(a / 2, b / 2) + (if a % 2 == 1 || b % 2 == 1 then 1 else 0)
  }

  function Xor(a: nat, b: nat): nat
    decreases a + b
  {
    if a + b == 0 then 0
    else 2 * Xor(a / 2, b / 2) + (if a % 2 != b % 2 then 1 else 0)
  }

  lemma {:induction false} BitZero(k: nat)
    ensures !Bit(0, k)
  {
    if k > 0 { BitZero(k - 1); }
  }

  /** Bits are the binary digits. */
  lemma {:induction false} BitIsDigit(n: nat, k: nat)
    ensures Bit(n, k) <==> n / Pow2(k) % 2 == 1
    decreases k
  {
    if k > 0 {
      BitIsDigit(n / 2, k - 1);
      DivTwice(n, Pow2(k - 1));
    }
  }

  lemma DivTwice(n: nat, m: nat)
    requires m > 0
    ensures n / (2 * m) == n / 2 / m
  {
    var q, r := n / 2 / m, n / 2 % m;
    assert n / 2 == m * q + r;
    assert n == 2 * (n / 2) + n % 2;
    assert n == (2 * m) * q + (2 * r + n % 2);
    ModUnique(n, 2 * m, q, 2 * r + n % 2);
  }

  lemma {:induction false} BitAnd(a: nat, b: nat, k: nat)
    ensures Bit(And(a, b), k) == (Bit(a, k) && Bit(b, k))
    decreases k
  {
    if a == 0 || b == 0 {
      BitZero(k);
    } else if k > 0 {
      BitAnd(a / 2, b / 2, k - 1);
    }
  }

  lemma {:induction false} BitXor(a: nat, b: nat, k: nat)
    ensures Bit(Xor(a, b), k) == (Bit(a, k) != Bit(b, k))
    decreases k
  {
    if a + b == 0 {
      BitZero(k);
    } else if k > 0 {
      BitXor(a / 2, b / 2, k - 1);
    }
  }

  lemma {:induction false} BitOr(a: nat, b: nat, k: nat)
    ensures Bit(Or(a, b), k) == (Bit(a, k) || Bit(b, k))
    decreases k
  {
    if a + b == 0 {
      BitZero(k);
    } else if k > 0 {
      BitOr(a / 2, b / 2, k - 1);
    }
  }

  lemma {:induction false} BitShift(n: nat, s: nat, k: nat)
    ensures Bit(n * Pow2(s), k) == (k >= s && Bit(n, k - s))
    decreases s
  {
    if s > 0 {
      assert n * Pow2(s) == 2 * (n * Pow2(s - 1));
      if k > 0 { BitShift(n, s - 1, k - 1); }
    }
  }

  lemma {:induction false} BitMod(n: nat, w: nat, k: nat)
    ensures Bit(n % Pow2(w), k) == (k < w && Bit(n, k))
    decreases w
  {
    if w == 0 {
      BitZero(k);
    } else {
      ModHalf(n, Pow2(w - 1));
      if k > 0 { BitMod(n / 2, w - 1, k - 1); }
    }
  }

  lemma ModHalf(n: nat, m: nat)
    requires m > 0
    ensures (n % (2 * m)) / 2 == (n / 2) % m
    ensures (n % (2 * m)) % 2 == n % 2
  {
    var q, r := n / (2 * m), n % (2 * m);
    assert n == (2 * m) * q + r;
    assert n == 2 * (m * q) + r;
    assert n / 2 == m * q + r / 2;
    ModUnique(n / 2, m, q, r / 2);
  }

  lemma ModUnique(n: int, m: int, q: int, r: int)
    requires m > 0 && n == m * q + r && 0 <= r < m
    ensures n / m == q && n % m == r
  {
    var d := n / m - q;
    assert m * (n / m) + n % m == n;
    assert m * d == r - n % m by {
      assert m * d == m * (n / m) - m * q;
    }
    MulBound(m, d);
  }

  lemma MulBound(m: int, d: int)
    requires m > 0
    ensures d >= 1 ==> m * d >= m
    ensures d <= -1 ==> m * d <= -m
  {
  }

  /** A mask test `w & (1 << d)` reads bit `d`. */
  lemma {:induction false} AndPow2(w: nat, d: nat)
    ensures And(w, Pow2(d)) == if Bit(w, d) then Pow2(d) else 0
    decreases d
  {
    if w == 0 {
      BitZero(d);
    } else if d > 0 {
      AndPow2(w / 2, d - 1);
    } else {
      assert Pow2(0) / 2 == 0;
    }
  }

  lemma {:induction false} BitPow2(d: nat, k: nat)
    ensures Bit(Pow2(d), k) == (d == k)
  {
    BitShift(1, d, k);
    assert 1 * Pow2(d) == Pow2(d);
    if k >= d { BitOne(k - d); }
  }

  lemma BitOne(k: nat)
    ensures Bit(1, k) == (k == 0)
  {
    if k > 0 { BitZero(k - 1); }
  }

  lemma {:induction false} OrBound(a: nat, b: nat, w: nat)
    requires a < Pow2(w) && b < Pow2(w)
    ensures Or(a, b) < Pow2(w)
    decreases w
  {
    if w > 0 { OrBound(a / 2, b / 2, w - 1); }
  }

  lemma {:induction false} XorBound(a: nat, b: nat, w: nat)
    requires a < Pow2(w) && b < Pow2(w)
    ensures Xor(a, b) < Pow2(w)
    decreases w
  {
    if w > 0 { XorBound(a / 2, b / 2, w - 1); }
  }

  lemma {:induction false} XorInvolution(a: nat, b: nat)
    ensures Xor(Xor(a, b), b) == a
    decreases a + b
  {
    if a + b > 0 {
      XorInvolution(a / 2, b / 2);
      assert Xor(a, b) / 2 == Xor(a / 2, b / 2);
    }
  }

  lemma {:induction false} XorSymmetric(a: nat, b: nat)
    ensures Xor(a, b) == Xor(b, a)
    decreases a + b
  {
    if a + b > 0 { XorSymmetric(a / 2, b / 2); }
  }

  lemma {:induction false} XorZero(a: nat)
    ensures Xor(a, 0) == a && Xor(0, a) == a
  {
    if a > 0 { XorZero(a / 2); }
  }

  lemma XorCancel(a: nat, b: nat, c: nat)
    requires Xor(a, b) == Xor(a, c)
    ensures b == c
  {
    XorSymmetric(a, b);
    XorSymmetric(a, c);
    XorInvolution(b, a);
    XorInvolution(c, a);
  }

  lemma XorDouble(p: nat, q: nat, x: nat, y: nat)
    requires x < 2 && y < 2
    ensures Xor(2 * p + x, 2 * q + y) == 2 * Xor(p, q) + Xor(x, y)
  {
    assert (2 * p + x) / 2 == p && (2 * q + y) / 2 == q;
    assert Xor(0, 0) == 0;
  }

  /** Words made of a high and a low part xor part by part. */
  lemma {:induction false} XorSplit(a: nat, b: nat, x: nat, y: nat, w: nat)
    requires x < Pow2(w) && y < Pow2(w)
    ensures Xor(ShiftUp(a, w) + x, ShiftUp(b, w) + y) == ShiftUp(Xor(a, b), w) + Xor(x, y)
    decreases w
  {
    hide Xor, ShiftUp;
    if w == 0 {
      ShiftUpZero(a);
      ShiftUpZero(b);
      ShiftUpZero(Xor(a, b));
      XorZero(0);
    } else {
      ShiftUpStep(a, w);
      ShiftUpStep(b, w);
      ShiftUpStep(Xor(a, b), w);
      XorSplit(a, b, x / 2, y / 2, w - 1);
      XorDoubled(ShiftUp(a, w - 1), ShiftUp(b, w - 1), ShiftUp(Xor(a, b), w - 1), x, y);
    }
  }

  lemma XorDoubled(a: nat, b: nat, c: nat, x: nat, y: nat)
    requires Xor(a + x / 2, b + y / 2) == c + Xor(x / 2, y / 2)
    ensures Xor(2 * a + x, 2 * b + y) == 2 * c + Xor(x, y)
  {
    hide Xor;
    XorDouble(a + x / 2, b + y / 2, x % 2, y % 2);
    XorDouble(x / 2, y / 2, x % 2, y % 2);
  }

  lemma ShiftUpZero(a: nat)
    ensures ShiftUp(a, 0) == a
  {
  }

  lemma ShiftUpStep(a: nat, w: nat)
    requires w > 0
    ensures ShiftUp(a, w) == 2 * ShiftUp(a, w - 1) && Pow2(w) == 2 * Pow2(w - 1)
  {
  }
}
