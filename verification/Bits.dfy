/** Bitwise operations on natural numbers, bit by bit, and what they mean arithmetically. */
module Bits {

  const TWO63: int := 0x8000_0000_0000_0000
  const TWO64: int := 0x1_0000_0000_0000_0000

  function Pow2(k: nat): (p: nat)
    ensures 0 < p
  {
    if k == 0 then 1 else 2 * Pow2(k - 1)
  }

  function And(a: nat, b: nat): (r: nat)
    ensures r <= a && r <= b
  {
    if a == 0 || b == 0 then 0 else (if a % 2 == 1 && b % 2 == 1 then 1 else 0) + 2 * And(a / 2, b / 2)
  }

  function Or(a: nat, b: nat): (r: nat)
    decreases a + b
  {
    if a == 0 && b == 0 then 0 else (if a % 2 == 1 || b % 2 == 1 then 1 else 0) + 2 * Or(a / 2, b / 2)
  }

  function Xor(a: nat, b: nat): (r: nat)
    decreases a + b
  {
    if a == 0 && b == 0 then 0 else (if a % 2 == b % 2 then 0 else 1) + 2 * Xor(a / 2, b / 2)
  }

  lemma {:induction false} AndHalves(a: nat, b: nat)
    ensures And(a, b) == (if a % 2 == 1 && b % 2 == 1 then 1 else 0) + 2 * And(a / 2, b / 2)
  {
  }

  /** Bit k of a number, counted from the lowest. */
  function Bit(n: nat, k: nat): (b: nat)
    ensures b < 2
  {
    if k == 0 then n % 2 else Bit(n / 2, k - 1)
  }

  lemma {:induction false} BitIsDigit(n: nat, k: nat)
    ensures Bit(n, k) == n / Pow2(k) % 2
  {
    if k != 0 {
      BitIsDigit(n / 2, k - 1);
      var p := Pow2(k - 1);
      assert Pow2(k) == 2 * p;
      DivideTwice(n, p);
    }
  }

  lemma DivideTwice(n: nat, p: nat)
    requires 0 < p
    ensures n / 2 / p == n / (2 * p)
  {
    var h := n / 2;
    var q := h / p;
    assert h == q * p + h % p;
    assert n == q * (2 * p) + (n % 2 + 2 * (h % p));
    ModUnique(n, 2 * p, q, n % 2 + 2 * (h % p));
  }

  lemma {:induction false} AndBit(a: nat, b: nat, k: nat)
    ensures Bit(And(a, b), k) == if Bit(a, k) == 1 && Bit(b, k) == 1 then 1 else 0
  {
    AndHalves(a, b);
    hide And;
    if k != 0 {
      assert And(a, b) / 2 == And(a / 2, b / 2);
      AndBit(a / 2, b / 2, k - 1);
    }
  }

  lemma {:induction false} OrBit(a: nat, b: nat, k: nat)
    ensures Bit(Or(a, b), k) == if Bit(a, k) == 1 || Bit(b, k) == 1 then 1 else 0
  {
    assert Or(a, b) == (if a % 2 == 1 || b % 2 == 1 then 1 else 0) + 2 * Or(a / 2, b / 2);
    hide Or;
    if k != 0 {
      assert Or(a, b) / 2 == Or(a / 2, b / 2);
      OrBit(a / 2, b / 2, k - 1);
    }
  }

  /** Exclusive or, bit by bit. */
  lemma {:induction false} XorBit(a: nat, b: nat, k: nat)
    ensures Bit(Xor(a, b), k) == if Bit(a, k) != Bit(b, k) then 1 else 0
  {
    assert Xor(a, b) == (if a % 2 == b % 2 then 0 else 1) + 2 * Xor(a / 2, b / 2);
    hide Xor;
    if k != 0 {
      assert Xor(a, b) / 2 == Xor(a / 2, b / 2);
      XorBit(a / 2, b / 2, k - 1);
    }
  }

  lemma AndNothing(c: nat)
    ensures And(c, 0) == 0
  {
  }

  /** Masking with 2^k - 1 is the remainder modulo 2^k. */
  lemma {:induction false} AndMask(c: nat, k: nat)
    ensures And(c, Pow2(k) - 1) == c % Pow2(k)
  {
    if k == 0 {
      AndNothing(c);
    } else {
      var p := Pow2(k - 1);
      assert Pow2(k) == 2 * p;
      hide And, Pow2;
      AndMask(c / 2, k - 1);
      AndMaskDouble(c, p);
    }
  }

  lemma {:induction false} AndMaskDouble(c: nat, p: nat)
    requires 0 < p && And(c / 2, p - 1) == c / 2 % p
    ensures And(c, 2 * p - 1) == c % (2 * p)
  {
    hide And;
    AndHalves(c, 2 * p - 1);
    assert (2 * p - 1) / 2 == p - 1;
    ModDouble(c, p);
  }

  lemma ModDouble(c: nat, p: nat)
    requires 0 < p
    ensures c % (2 * p) == c % 2 + 2 * (c / 2 % p)
  {
    var h := c / 2;
    var q := h / p;
    assert h == q * p + h % p;
    assert c == q * (2 * p) + (c % 2 + 2 * (h % p));
    ModUnique(c, 2 * p, q, c % 2 + 2 * (h % p));
  }

  lemma ModUnique(c: int, m: int, q: int, r: int)
    requires 0 < m && c == q * m + r && 0 <= r < m
    ensures c % m == r && c / m == q
  {
    var d := c / m - q;
    assert r == d * m + c % m;
    assert d >= 1 ==> d * m >= m;
    assert d <= -1 ==> d * m <= -m;
  }

  lemma {:induction false} XorBound(a: nat, b: nat, k: nat)
    requires a < Pow2(k) && b < Pow2(k)
    ensures Xor(a, b) < Pow2(k)
  {
    if k != 0 && (a != 0 || b != 0) {
      XorBound(a / 2, b / 2, k - 1);
    }
  }

  /** Xor with the same number twice restores the first operand. */
  lemma {:induction false} XorTwice(a: nat, b: nat)
    ensures Xor(Xor(a, b), b) == a
    decreases a + b
  {
    if a != 0 || b != 0 {
      var bit, high := (if a % 2 == b % 2 then 0 else 1), Xor(a / 2, b / 2);
      assert Xor(a, b) % 2 == bit && Xor(a, b) / 2 == high;
      XorTwice(a / 2, b / 2);
      if Xor(a, b) == 0 && b == 0 {
        assert Xor(a / 2, 0) == 0;
        XorZero(a);
      }
    }
  }

  lemma {:induction false} XorZero(a: nat)
    ensures Xor(a, 0) == a
  {
    if a != 0 {
      XorZero(a / 2);
    }
  }

  /** The greatest power of two not above n. */
  function TopBit(n: nat): (p: nat)
    requires 0 < n
    ensures p <= n < 2 * p
  {
    if n == 1 then 1 else 2 * TopBit(n / 2)
  }

  predicate IsPow2(n: nat) {
    0 < n && n == TopBit(n)
  }

  lemma {:induction false} IsPow2Iff(n: nat)
    ensures IsPow2(n) <==> exists k: nat :: n == Pow2(k)
  {
    if IsPow2(n) {
      var k := Exponent(n);
    }
    forall k: nat | n == Pow2(k)
      ensures IsPow2(n)
    {
      Pow2IsPow2(k);
    }
  }

  lemma {:induction false} Exponent(n: nat) returns (k: nat)
    requires IsPow2(n)
    ensures n == Pow2(k)
  {
    if n == 1 {
      k := 0;
    } else {
      k := Exponent(n / 2);
      k := k + 1;
    }
  }

  lemma {:induction false} Pow2IsPow2(k: nat)
    ensures IsPow2(Pow2(k))
  {
    if k != 0 {
      Pow2IsPow2(k - 1);
    }
  }

  /** Between a power of two and its double there is no other. */
  lemma {:induction false} NextPow2(p: nat, q: nat)
    requires IsPow2(p) && IsPow2(q) && p < q
    ensures 2 * p <= q
  {
    if p != 1 {
      NextPow2(p / 2, q / 2);
    }
  }

  /** n & (n - 1) clears the lowest set bit: nothing is left exactly of a power of two,
      and otherwise the top bit stays. */
  lemma {:induction false} ClearLowest(n: nat)
    requires 0 < n
    ensures And(n, n - 1) < n
    ensures And(n, n - 1) == 0 <==> IsPow2(n)
    ensures And(n, n - 1) == 0 <==> n == TopBit(n)
    ensures 0 < And(n, n - 1) ==> TopBit(And(n, n - 1)) == TopBit(n)
  {
    hide And;
    var h := n / 2;
    AndHalves(n, n - 1);
    if n % 2 == 0 {
      ClearLowest(h);
      assert (n - 1) / 2 == h - 1;
      var c := And(h, h - 1);
      assert And(n, n - 1) == 2 * c;
      assert 0 < c ==> TopBit(2 * c) == 2 * TopBit(c);
    } else {
      AndSelf(h);
      assert (n - 1) / 2 == h;
      assert And(n, n - 1) == 2 * h;
      assert 0 < h ==> TopBit(n) == 2 * TopBit(h) == TopBit(2 * h);
    }
  }

  lemma {:induction false} AndSelf(n: nat)
    ensures And(n, n) == n
  {
    if n != 0 {
      AndSelf(n / 2);
    }
  }

  lemma {:induction false} AndShift(a: nat, b: nat)
    ensures And(a, 2 * b) == 2 * And(a / 2, b)
  {
    if a == 0 || b == 0 {
      assert And(a, 2 * b) == 0 && And(a / 2, b) == 0;
    } else {
      var c := 2 * b;
      assert c % 2 == 0 && c / 2 == b;
      assert And(a, c) == 2 * And(a / 2, c / 2);
    }
  }

  /** A bit above the other operand is added to it. */
  lemma {:induction false} OrAbove(k: nat, a: nat)
    requires a < Pow2(k)
    ensures Or(Pow2(k), a) == Pow2(k) + a
  {
    if k == 0 {
      assert Or(1, 0) == 1 + 2 * Or(0, 0);
    } else {
      OrAbove(k - 1, a / 2);
      assert Pow2(k) / 2 == Pow2(k - 1) && Pow2(k) % 2 == 0;
    }
  }

  lemma Pow2Eight(k: nat)
    ensures Pow2(8 * (k + 1)) == 256 * Pow2(8 * k)
  {
    var j := 8 * k;
    assert 8 * (k + 1) == j + 8;
    assert Pow2(j + 8) == 2 * Pow2(j + 7) == 4 * Pow2(j + 6) == 8 * Pow2(j + 5) == 16 * Pow2(j + 4);
    assert Pow2(j + 4) == 2 * Pow2(j + 3) == 4 * Pow2(j + 2) == 8 * Pow2(j + 1) == 16 * Pow2(j);
  }

  lemma PowersOfTwo()
    ensures Pow2(16) == 0x1_0000 && Pow2(31) == 0x8000_0000
    ensures Pow2(63) == TWO63 && Pow2(64) == TWO64
  {
    Pow2Eight(0);
    Pow2Eight(1);
    Pow2Eight(2);
    Pow2Eight(3);
    Pow2Eight(4);
    Pow2Eight(5);
    Pow2Eight(6);
    Pow2Eight(7);
    assert Pow2(32) == 2 * Pow2(31) && Pow2(64) == 2 * Pow2(63);
  }
}
