/** Facts about products, quotients, powers and bits that the verifier does not find by itself. */
module Arithmetic {

  lemma {:induction false} ProductMonotone(a: nat, b: nat, m: nat)
    requires a <= b
    ensures a * m <= b * m
    decreases b
  {
    if a < b {
      ProductMonotone(a, b - 1, m);
      assert b * m == (b - 1) * m + m;
    }
  }

  lemma Distribute(a: int, b: int, m: int)
    ensures (a + b) * m == a * m + b * m
  {
  }

  lemma QuotientMonotone(x: nat, y: nat, d: nat)
    requires d > 0 && x <= y
    ensures x / d <= y / d
  {
    assert y == y / d * d + y % d && x == x / d * d + x % d;
    assert (y / d + 1) * d == y / d * d + d;
    if x / d > y / d {
      ProductMonotone(y / d + 1, x / d, d);
    }
  }

  lemma DivisionUnique(d: nat, q: nat, r: nat, n: nat)
    requires 0 < d && r < d && n == q * d + r
    ensures n / d == q && n % d == r
  {
    var q', r' := n / d, n % d;
    assert n == q' * d + r';
    assert (q' + 1) * d == q' * d + d;
    assert (q + 1) * d == q * d + d;
    if q' < q {
      ProductMonotone(q' + 1, q, d);
    } else if q < q' {
      ProductMonotone(q + 1, q', d);
    }
  }

  function Pow2(n: nat): (p: nat)
    ensures p > 0
  {
    if n == 0 then 1 else 2 * Pow2(n - 1)
  }

  lemma {:induction false} Pow2Monotone(a: nat, b: nat)
    requires a <= b
    ensures Pow2(a) <= Pow2(b)
    decreases b
  {
    if a < b { Pow2Monotone(a, b - 1); }
  }

  lemma {:induction false} Pow2Sum(m: nat, n: nat)
    ensures Pow2(m + n) == Pow2(m) * Pow2(n)
  {
    if m > 0 {
      Pow2Sum(m - 1, n);
      assert Pow2(m) * Pow2(n) == 2 * (Pow2(m - 1) * Pow2(n));
    }
  }

  // ---------- Bits ----------

  /** Bit `i` of a number. */
  function BitOf(a: nat, i: nat): (c: nat)
    ensures c < 2
  {
    if i == 0 then a % 2 else BitOf(a / 2, i - 1)
  }

  lemma {:induction false} BitIs(a: nat, i: nat)
    ensures BitOf(a, i) == a / Pow2(i) % 2
  {
    if i > 0 {
      BitIs(a / 2, i - 1);
      Halved(a, Pow2(i - 1));
    }
  }

  lemma Halved(a: nat, p: nat)
    requires p > 0
    ensures a / 2 / p == a / (2 * p)
  {
    var h := a / 2;
    var q, r := h / p, h % p;
    assert h == q * p + r && a == 2 * h + a % 2;
    assert q * (2 * p) == 2 * (q * p);
    DivisionUnique(2 * p, q, 2 * r + a % 2, a);
  }

  /** Numbers with the same bits are the same. */
  lemma {:induction false} SameBits(n: nat, a: nat, b: nat)
    requires a < Pow2(n) && b < Pow2(n) && forall i :: 0 <= i < n ==> BitOf(a, i) == BitOf(b, i)
    ensures a == b
  {
    if n > 0 {
      assert BitOf(a, 0) == a % 2 && BitOf(b, 0) == b % 2;
      forall i | 0 <= i < n - 1
        ensures BitOf(a / 2, i) == BitOf(b / 2, i)
      {
        assert BitOf(a, i + 1) == BitOf(b, i + 1);
      }
      SameBits(n - 1, a / 2, b / 2);
    }
  }

  /** Multiplying by a power of two moves bits up. */
  lemma {:induction false} BitsUp(a: nat, b: nat, i: nat)
    ensures BitOf(a * Pow2(b), i) == if i < b then 0 else BitOf(a, i - b)
  {
    if b > 0 {
      var half := a * Pow2(b - 1);
      assert a * Pow2(b) == 2 * half;
      assert (2 * half) / 2 == half && (2 * half) % 2 == 0;
      hide Pow2;
      if i > 0 { BitsUp(a, b - 1, i - 1); }
    }
  }

  /** Dividing by one moves bits down. */
  lemma {:induction false} BitsDown(a: nat, b: nat, q: nat, i: nat)
    requires q == a / Pow2(b)
    ensures BitOf(q, i) == BitOf(a, i + b)
  {
    if b > 0 {
      Halved(a, Pow2(b - 1));
      assert BitOf(a, i + b) == BitOf(a / 2, i + b - 1);
      hide Pow2, BitOf;
      BitsDown(a / 2, b - 1, q, i);
    }
  }

  /** The low bits of a number are its bits. */
  lemma {:induction false} LowBits(n: nat, x: nat, i: nat)
    requires i < n
    ensures BitOf(x % Pow2(n), i) == BitOf(x, i)
  {
    var p := Pow2(n - 1);
    var r := x % Pow2(n);
    assert r / 2 == x / 2 % p && r % 2 == x % 2 by { HalfOfRest(x, p); }
    hide Pow2;
    if i > 0 { LowBits(n - 1, x / 2, i - 1); }
  }

  lemma HalfOfRest(x: nat, p: nat)
    requires p > 0
    ensures x % (2 * p) / 2 == x / 2 % p && x % (2 * p) % 2 == x % 2
  {
    var h := x / 2;
    var q, r := h / p, h % p;
    assert h == q * p + r && x == 2 * h + x % 2;
    assert q * (2 * p) == 2 * (q * p);
    DivisionUnique(2 * p, q, 2 * r + x % 2, x);
  }

  lemma {:induction false} BitsTurned(n: nat, a: nat, i: nat)
    requires a < Pow2(n) && i < n
    ensures BitOf(Pow2(n) - 1 - a, i) == 1 - BitOf(a, i)
  {
    var p := Pow2(n - 1);
    assert (2 * p - 1 - a) / 2 == p - 1 - a / 2 && (2 * p - 1 - a) % 2 == 1 - a % 2;
    hide Pow2;
    if i > 0 { BitsTurned(n - 1, a / 2, i - 1); }
  }
}
