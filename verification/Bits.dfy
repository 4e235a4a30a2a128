/** Natural-number arithmetic behind machine words: powers of two, quotient and remainder, and the
    bitwise operators as functions on naturals. */
module Bits {

  /** The content of a 32-bit register. */
  type Word = n: nat | n < 0x1_0000_0000

  function Pow2(n: nat): (r: nat)
    ensures r > 0
  {
    if n == 0 then 1 else 2 * Pow2(n - 1)
  }

  lemma {:induction false} MulMono(a: nat, b: nat, d: nat)
    requires a <= b
    ensures a * d <= b * d
  {
    assert b * d == a * d + (b - a) * d;
    MulNonNeg(b - a, d);
  }

  lemma MulNonNeg(a: nat, b: nat)
    ensures 0 <= a * b
  {}

  lemma MulAssoc(a: nat, b: nat, c: nat)
    ensures a * (b * c) == (a * b) * c
  {}

  lemma MulAdd(a: nat, b: nat, c: nat)
    ensures (a + b) * c == a * c + b * c
  {}

  /** A strictly smaller factor leaves room for one more copy of the other. */
  lemma MulStep(a: nat, b: nat, d: nat)
    requires a < b
    ensures a * d + d <= b * d
  {
    MulAdd(a, 1, d);
    MulMono(a + 1, b, d);
  }

  lemma QuotientBelow(n: nat, d: nat, m: nat)
    requires d > 0 && n < m * d
    ensures n / d < m
  {
    if m <= n / d { MulMono(m, n / d, d); }
  }

  /** Quotient and remainder are unique. */
  lemma DivUnique(n: nat, d: nat, q: nat, r: nat)
    requires 0 <= r < d && n == q * d + r
    ensures n / d == q && n % d == r
  {
    var q', r' := n / d, n % d;
    assert n == q' * d + r';
    if q' > q {
      MulMono(q + 1, q', d);
    } else if q' < q {
      MulMono(q' + 1, q, d);
    }
  }

  lemma {:induction false} Pow2Add(a: nat, b: nat)
    ensures Pow2(a + b) == Pow2(a) * Pow2(b)
    decreases b
  {
    if b > 0 {
      Pow2Add(a, b - 1);
      assert Pow2(a) * (2 * Pow2(b - 1)) == 2 * (Pow2(a) * Pow2(b - 1));
    }
  }

  lemma {:induction false} Pow2Mono(a: nat, b: nat)
    requires a <= b
    ensures Pow2(a) <= Pow2(b)
    decreases b
  {
    if a < b { Pow2Mono(a, b - 1); }
  }

  lemma Pow2Order(a: nat, b: nat)
    requires Pow2(a) <= Pow2(b)
    ensures a <= b
  {
    if b < a { Pow2Mono(b + 1, a); }
  }

  lemma Pow2Less(a: nat, b: nat)
    requires Pow2(a) < Pow2(b)
    ensures a < b
  {
    if b <= a { Pow2Mono(b, a); }
  }

  lemma Pow2ProductBelow(a: nat, b: nat, s: nat)
    requires a + b <= s
    ensures Pow2(a) * Pow2(b) <= Pow2(s)
  {
    Pow2Add(a, b);
    Pow2Mono(a + b, s);
  }

  lemma Pow2ProductAbove(a: nat, b: nat, s: nat)
    requires s <= a + b
    ensures Pow2(s) <= Pow2(a) * Pow2(b)
  {
    Pow2Add(a, b);
    Pow2Mono(s, a + b);
  }

  /** Number of significant bits. */
  function BitLen(n: nat): nat {
    if n == 0 then 0 else 1 + BitLen(n / 2)
  }

  lemma {:induction false} BitLenBounds(n: nat)
    requires n > 0
    ensures BitLen(n) > 0 && Pow2(BitLen(n) - 1) <= n < Pow2(BitLen(n))
  {
    if n > 1 { BitLenBounds(n / 2); }
  }

  lemma BitLenUnique(n: nat, k: nat)
    requires k > 0 && Pow2(k - 1) <= n < Pow2(k)
    ensures BitLen(n) == k
  {
    BitLenBounds(n);
    if BitLen(n) < k { Pow2Mono(BitLen(n), k - 1); }
    if k < BitLen(n) { Pow2Mono(k, BitLen(n) - 1); }
  }

  lemma BitLenShifted(x: nat, k: nat)
    requires x > 0
    ensures BitLen(x * Pow2(k)) == BitLen(x) + k
  {
    var l := BitLen(x);
    BitLenBounds(x);
    Pow2Add(l - 1, k);
    Pow2Add(l, k);
    MulMono(Pow2(l - 1), x, Pow2(k));
    MulStep(x, Pow2(l), Pow2(k));
    BitLenUnique(x * Pow2(k), l + k);
  }

  // ---- bitwise operators ----

  function And(a: nat, b: nat): (r: nat)
    decreases a
  {
    if a == 0 || b == 0 then 0
    else 2 * And(a / 2, b / 2) + (if a % 2 == 1 && b % 2 == 1 then 1 else 0)
  }

  function Or(a: nat, b: nat): (r: nat)
    decreases a + b
  {
    if a == 0 then b else if b == 0 then a
    else 2 * Or(a / 2, b / 2) + (if a % 2 == 1 || b % 2 == 1 then 1 else 0)
  }

  lemma {:induction false} AndSelf(a: nat)
    ensures And(a, a) == a
  {
    if a > 0 { AndSelf(a / 2); }
  }

  ghost predicate IsPow2(n: nat) { exists k: nat :: n == Pow2(k) }

  lemma {:induction false} IsPow2Double(c: nat)
    ensures IsPow2(2 * c) <==> IsPow2(c)
  {
    if IsPow2(c) {
      var k: nat :| c == Pow2(k);
      assert 2 * c == Pow2(k + 1);
    }
    if IsPow2(2 * c) {
      var k: nat :| 2 * c == Pow2(k);
      assert k > 0 && c == Pow2(k - 1);
    }
  }

  lemma OddNotPow2(a: nat)
    requires a % 2 == 1 && a != 1
    ensures !IsPow2(a)
  {
    forall k: nat ensures a != Pow2(k) {}
  }

  /** The usual power-of-two test. */
  lemma {:induction false} AndPred(a: nat)
    requires a > 0
    ensures And(a, a - 1) == 0 <==> IsPow2(a)
    decreases a
  {
    if a == 1 {
      assert 1 == Pow2(0);
    } else if a % 2 == 1 {
      AndSelf(a / 2);
      assert (a - 1) / 2 == a / 2;
      OddNotPow2(a);
    } else {
      assert (a - 1) / 2 == a / 2 - 1;
      AndPred(a / 2);
      IsPow2Double(a / 2);
    }
  }

  lemma AndEven(x: nat, m: nat, d: nat)
    requires d == 2 * m
    ensures And(x, d) == 2 * And(x / 2, m)
  {
    assert d / 2 == m && d % 2 == 0;
  }

  lemma AndOdd(x: nat, m: nat, d: nat)
    requires d == 2 * m + 1
    ensures And(x, d) == 2 * And(x / 2, m) + x % 2
  {
    assert d / 2 == m && d % 2 == 1;
  }

  lemma Halve(x: nat, m: nat, d: nat)
    requires m > 0 && d == 2 * m
    ensures x / d == x / 2 / m && x % d == 2 * (x / 2 % m) + x % 2
  {
    var q, r := x / 2 / m, x / 2 % m;
    MulAssoc(q, 2, m);
    assert x / 2 == q * m + r;
    DivUnique(x, d, q, 2 * r + x % 2);
  }

  /** Masking with 2^k - 1 is the remainder modulo 2^k. */
  lemma {:induction false} AndMask(x: nat, k: nat)
    ensures And(x, Pow2(k) - 1) == x % Pow2(k)
    decreases k
  {
    if k > 0 {
      AndMask(x / 2, k - 1);
      AndMaskStep(x, Pow2(k - 1), Pow2(k));
    }
  }

  lemma AndMaskStep(x: nat, p: nat, d: nat)
    requires p > 0 && d == 2 * p && And(x / 2, p - 1) == x / 2 % p
    ensures And(x, d - 1) == x % d
  {
    AndOdd(x, p - 1, d - 1);
    Halve(x, p, d);
  }

  /** Masking with a run of w ones starting at bit lo picks that field, in place. */
  lemma {:induction false} AndField(x: nat, lo: nat, w: nat, mask: nat)
    requires mask == (Pow2(w) - 1) * Pow2(lo)
    ensures And(x, mask) == x / Pow2(lo) % Pow2(w) * Pow2(lo)
    decreases lo
  {
    if lo == 0 {
      AndMask(x, w);
      OneField(x, Pow2(w), Pow2(lo));
    } else {
      var half := (Pow2(w) - 1) * Pow2(lo - 1);
      AndField(x / 2, lo - 1, w, half);
      DoubleOut(Pow2(w) - 1, Pow2(lo - 1), Pow2(lo));
      AndEven(x, half, mask);
      FieldStep(x, Pow2(lo - 1), Pow2(lo), Pow2(w));
    }
  }

  lemma OneField(x: nat, w: nat, one: nat)
    requires w > 0 && one == 1
    ensures (w - 1) * one == w - 1 && x / one % w * one == x % w
  {}

  lemma FieldStep(x: nat, p: nat, d: nat, w: nat)
    requires p > 0 && w > 0 && d == 2 * p
    ensures x / d % w * d == 2 * (x / 2 / p % w * p)
  {
    Halve(x, p, d);
    DoubleOut(x / 2 / p % w, p, d);
  }

  lemma DoubleOut(a: nat, p: nat, d: nat)
    requires d == 2 * p
    ensures a * d == 2 * (a * p)
  {}

  /** Joining a field with lower bits is addition. */
  lemma {:induction false} OrDisjoint(hi: nat, lo: nat, k: nat)
    requires lo < Pow2(k)
    ensures Or(hi * Pow2(k), lo) == hi * Pow2(k) + lo
    ensures Or(lo, hi * Pow2(k)) == hi * Pow2(k) + lo
    decreases k
  {
    if k > 0 {
      OrDisjoint(hi, lo / 2, k - 1);
      DoubleOut(hi, Pow2(k - 1), Pow2(k));
      OrShifted(hi * Pow2(k - 1), hi * Pow2(k), lo);
    }
  }

  lemma OrShifted(h: nat, d: nat, lo: nat)
    requires d == 2 * h && Or(h, lo / 2) == h + lo / 2 && Or(lo / 2, h) == h + lo / 2
    ensures Or(d, lo) == d + lo && Or(lo, d) == d + lo
  {
    assert d / 2 == h && d % 2 == 0;
    OrHalves(d, lo);
    OrHalves(lo, d);
    FromHalves(Or(d, lo), h, lo);
    FromHalves(Or(lo, d), h, lo);
  }

  lemma FromHalves(x: nat, h: nat, lo: nat)
    requires x / 2 == h + lo / 2 && x % 2 == lo % 2
    ensures x == 2 * h + lo
  {}

  lemma OrHalves(a: nat, b: nat)
    ensures Or(a, b) / 2 == Or(a / 2, b / 2)
    ensures Or(a, b) % 2 == (if a % 2 == 1 || b % 2 == 1 then 1 else 0)
  {}

  lemma {:induction false} OrAssoc(a: nat, b: nat, c: nat)
    ensures Or(Or(a, b), c) == Or(a, Or(b, c))
    decreases a + b + c
  {
    if a > 0 && b > 0 && c > 0 {
      OrHalves(a, b);
      OrHalves(b, c);
      OrHalves(Or(a, b), c);
      OrHalves(a, Or(b, c));
      OrAssoc(a / 2, b / 2, c / 2);
    }
  }
}
