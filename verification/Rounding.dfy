/** Rounding to nearest, ties to even (sections 4.3.1 and 5.4.1 of IEEE 754-2008), on natural
    magnitudes with an unbounded exponent, and when rounding twice is harmless. */
module Rounding {
  import opened Bits

  function Dist(a: nat, b: nat): nat { if a < b then b - a else a - b }

  /** The multiple of u nearest to n; of two nearest ones, the even multiple. */
  function RoundUnit(n: nat, u: nat): nat
    requires u > 0
  {
    var q, r := n / u, n % u;
    if 2 * r < u || (2 * r == u && q % 2 == 0) then q * u else (q + 1) * u
  }

  /** n rounded to a significand of p bits. */
  function Round(p: nat, n: nat): nat {
    if n < Pow2(p) then n
    else RoundUnit(n, Pow2(if BitLen(n) > p then BitLen(n) - p else 0))
  }

  /** m is c * 2^k for a significand c of p bits. */
  predicate Fits(p: nat, m: nat, c: nat, k: nat) { c < Pow2(p) && m == c * Pow2(k) }

  ghost predicate Representable(p: nat, m: nat) {
    exists c, k :: Fits(p, m, c, k)
  }

  lemma RoundUnitNearest(n: nat, u: nat, m: nat)
    requires u > 0
    ensures Dist(RoundUnit(n, u), n) <= Dist(m * u, n)
    ensures RoundUnit(n, u) == (n / u) * u || RoundUnit(n, u) == (n / u + 1) * u
  {
    var q, r := n / u, n % u;
    assert n == q * u + r;
    assert (q + 1) * u == q * u + u;
    if m <= q { MulMono(m, q, u); } else { MulMono(q + 1, m, u); }
  }

  lemma LongerThanP(p: nat, n: nat)
    requires n >= Pow2(p)
    ensures BitLen(n) > p
    ensures Pow2(BitLen(n) - 1) <= n < Pow2(BitLen(n))
  {
    BitLenBounds(n);
    if BitLen(n) <= p { Pow2Mono(BitLen(n), p); }
  }

  lemma RoundRepresentable(p: nat, n: nat)
    requires p > 0
    ensures Representable(p, Round(p, n))
  {
    if n < Pow2(p) {
      FitsRepresentable(p, n, n, 0);
    } else {
      LongerThanP(p, n);
      var k := BitLen(n) - p;
      Pow2Add(p, k);
      UnitRepresentable(p, n, k, Pow2(k));
    }
  }

  lemma UnitRepresentable(p: nat, n: nat, k: nat, u: nat)
    requires p > 0 && u == Pow2(k) && n < Pow2(p) * u
    ensures Representable(p, RoundUnit(n, u))
  {
    var q := UnitsRounded(n, u, Pow2(p));
    MultipleRepresentable(p, q, k, u, RoundUnit(n, u));
  }

  lemma UnitsRounded(n: nat, u: nat, m: nat) returns (q: nat)
    requires u > 0 && n < m * u
    ensures q <= m && RoundUnit(n, u) == q * u
  {
    QuotientBelow(n, u, m);
    q := n / u;
    if !(2 * (n % u) < u || (2 * (n % u) == u && q % 2 == 0)) { q := q + 1; }
  }

  lemma FitsRepresentable(p: nat, m: nat, c: nat, k: nat)
    requires Fits(p, m, c, k)
    ensures Representable(p, m)
  {}

  lemma MultipleRepresentable(p: nat, c: nat, k: nat, u: nat, m: nat)
    requires p > 0 && c <= Pow2(p) && u == Pow2(k) && m == c * u
    ensures Representable(p, m)
  {
    if c < Pow2(p) {
      FitsRepresentable(p, m, c, k);
    } else {
      Pow2Add(p, k);
      PowerRepresentable(p, p + k);
    }
  }

  lemma PowerRepresentable(p: nat, s: nat)
    requires p > 0
    ensures Representable(p, Pow2(s))
  {
    Pow2Mono(1, p);
    FitsRepresentable(p, Pow2(s), 1, s);
  }

  lemma BelowPower(p: nat, c: nat, k: nat, s: nat)
    requires c < Pow2(p) && p + k <= s
    ensures c * Pow2(k) <= Pow2(s)
  {
    MulMono(c, Pow2(p), Pow2(k));
    Pow2Add(p, k);
    Pow2Mono(p + k, s);
  }

  lemma CoarseMultiple(c: nat, k: nat, d: nat) returns (b: nat)
    requires k >= d
    ensures c * Pow2(k) == b * Pow2(d)
  {
    b := c * Pow2(k - d);
    Pow2Add(k - d, d);
    MulAssoc(c, Pow2(k - d), Pow2(d));
  }

  /** No p-bit value is closer to n than the rounded value. */
  lemma RoundNearest(p: nat, n: nat, m: nat)
    requires p > 0 && Representable(p, m)
    ensures Dist(Round(p, n), n) <= Dist(m, n)
  {
    if n >= Pow2(p) {
      LongerThanP(p, n);
      var c: nat, k: nat :| Fits(p, m, c, k);
      if k >= BitLen(n) - p { CoarseCase(p, n, c, k); } else { FineCase(p, n, c, k); }
    }
  }

  lemma CoarseCase(p: nat, n: nat, c: nat, k: nat)
    requires BitLen(n) > p && k >= BitLen(n) - p
    ensures Dist(RoundUnit(n, Pow2(BitLen(n) - p)), n) <= Dist(c * Pow2(k), n)
  {
    var b := CoarseMultiple(c, k, BitLen(n) - p);
    RoundUnitNearest(n, Pow2(BitLen(n) - p), b);
  }

  /** The value lies below the power of two at or below n, which is itself a multiple of the unit. */
  lemma FineCase(p: nat, n: nat, c: nat, k: nat)
    requires p > 0 && BitLen(n) > p && Pow2(BitLen(n) - 1) <= n && c < Pow2(p) && k < BitLen(n) - p
    ensures Dist(RoundUnit(n, Pow2(BitLen(n) - p)), n) <= Dist(c * Pow2(k), n)
  {
    var d := BitLen(n) - p;
    Pow2Add(p - 1, d);
    RoundUnitNearest(n, Pow2(d), Pow2(p - 1));
    BelowPower(p, c, k, BitLen(n) - 1);
  }

  /** When another p-bit value is as close, the rounded value is an even multiple of the unit. */
  lemma TiesToEven(p: nat, n: nat, m: nat) returns (c: nat)
    requires p > 0 && Representable(p, m) && m != Round(p, n) && Dist(m, n) == Dist(Round(p, n), n)
    ensures n >= Pow2(p) && BitLen(n) > p && c % 2 == 0 && Round(p, n) == c * Pow2(BitLen(n) - p)
  {
    LongerThanP(p, n);
    var d := BitLen(n) - p;
    var u := Pow2(d);
    Pow2Add(p - 1, d);
    Fine(p, n, m);
    c := TieQuotient(n, u, m, Pow2(p - 1));
  }

  predicate Multiple(m: nat, b: nat, u: nat) { m == b * u }

  ghost predicate IsMultiple(m: nat, u: nat) { exists b :: Multiple(m, b, u) }

  /** A p-bit value is a multiple of the unit of n, or not above the power of two at or below n. */
  lemma Fine(p: nat, n: nat, m: nat)
    requires p > 0 && Representable(p, m) && BitLen(n) > p
    ensures m <= Pow2(BitLen(n) - 1) || IsMultiple(m, Pow2(BitLen(n) - p))
  {
    var c: nat, k: nat :| Fits(p, m, c, k);
    if k >= BitLen(n) - p {
      var b := CoarseMultiple(c, k, BitLen(n) - p);
      assert Multiple(m, b, Pow2(BitLen(n) - p));
    } else {
      BelowPower(p, c, k, BitLen(n) - 1);
    }
  }

  lemma TieQuotient(n: nat, u: nat, m: nat, low: nat) returns (c: nat)
    requires u > 0 && low * u <= n && (m <= low * u || IsMultiple(m, u))
    requires m != RoundUnit(n, u) && Dist(m, n) == Dist(RoundUnit(n, u), n)
    ensures c % 2 == 0 && RoundUnit(n, u) == c * u
  {
    var q, r;
    q, r, c := UnitParts(n, u);
    LowQuotient(low, q, u, r);
    if c == q { TieDown(n, u, m, q, r, low * u); } else { TieUp(n, u, m, q, r, low * u); }
  }

  /** The quotient and remainder of n, and the quotient it is rounded to. */
  lemma UnitParts(n: nat, u: nat) returns (q: nat, r: nat, c: nat)
    requires u > 0
    ensures n == q * u + r && r < u && RoundUnit(n, u) == c * u
    ensures (c == q && 2 * r <= u) || (c == q + 1 && 2 * r >= u && c * u == q * u + u)
    ensures 2 * r == u ==> c % 2 == 0
  {
    q, r := n / u, n % u;
    c := if 2 * r < u || (2 * r == u && q % 2 == 0) then q else q + 1;
    MulAdd(q, 1, u);
  }

  lemma TieDown(n: nat, u: nat, m: nat, q: nat, r: nat, low: nat)
    requires n == q * u + r && 2 * r <= u && u > 0 && low <= q * u && (m <= low || IsMultiple(m, u))
    requires m != q * u && Dist(m, n) == Dist(q * u, n)
    ensures 2 * r == u
  {
    OtherSide(m, n, q * u);
    if 2 * r < u { NotMultiple(m, q, u, 2 * r); }
  }

  lemma TieUp(n: nat, u: nat, m: nat, q: nat, r: nat, low: nat)
    requires n == q * u + r && u <= 2 * r < u + u && low <= q * u && (m <= low || IsMultiple(m, u))
    requires m != q * u + u && Dist(m, n) == Dist(q * u + u, n)
    ensures 2 * r == u
  {
    OtherSide(m, n, q * u + u);
    if 2 * r > u { NotMultiple(m, q, u, 2 * r - u); }
  }

  lemma OtherSide(m: nat, n: nat, a: nat)
    requires m != a && Dist(m, n) == Dist(a, n)
    ensures m + a == n + n && a != n
  {}

  lemma LowQuotient(low: nat, q: nat, u: nat, r: nat)
    requires u > 0 && r < u && low * u <= q * u + r
    ensures low * u <= q * u
  {
    if low > q { MulStep(q, low, u); }
  }

  lemma NotMultiple(m: nat, q: nat, u: nat, r: nat)
    requires m == q * u + r && 0 < r < u
    ensures !IsMultiple(m, u)
  {
    forall b
      ensures !Multiple(m, b, u)
    {
      Gap(b, q, u);
    }
  }

  lemma Gap(b: nat, q: nat, u: nat)
    ensures b * u <= q * u || b * u >= q * u + u
  {
    if b > q { MulStep(q, b, u); } else { MulMono(b, q, u); }
  }

  /** Different multiples of v are at least v apart. */
  lemma MultiplesApart(a: nat, b: nat, v: nat)
    requires Dist(a * v, b * v) < v
    ensures a * v == b * v
  {
    if a < b { MulStep(a, b, v); }
    if b < a { MulStep(b, a, v); }
  }

  /** A p-bit value within half of 2^e of a normalized value a * 2^e is that value. */
  lemma Isolated(p: nat, a: nat, e: nat, m: nat)
    requires p > 0 && e > 0 && Pow2(p - 1) <= a < Pow2(p)
    requires Representable(p, m) && Dist(m, a * Pow2(e)) < Pow2(e - 1)
    ensures m == a * Pow2(e)
  {
    var c: nat, k: nat :| Fits(p, m, c, k);
    var b' := CoarseMultiple(a, e, e - 1);
    if k >= e - 1 {
      var b := CoarseMultiple(c, k, e - 1);
      MultiplesApart(b, b', Pow2(e - 1));
    } else {
      BelowPower(p, c, k, p + e - 2);
      HalfBelow(p, a, e);
    }
  }

  lemma HalfBelow(p: nat, a: nat, e: nat)
    requires p > 0 && e > 0 && Pow2(p - 1) <= a
    ensures Pow2(p + e - 2) + Pow2(e - 1) <= a * Pow2(e)
  {
    var v := Pow2(e - 1);
    Pow2Add(p - 1, e - 1);
    MulMono(Pow2(p - 1), a, v);
    MulMono(1, a, v);
    assert Pow2(e) == 2 * v;
    MulAdd(v, v, a);
  }

  /** Rounding anything close enough to a normalized value gives that value. */
  lemma RoundsTo(p: nat, a: nat, e: nat, n: nat)
    requires p > 0 && e > 1 && Pow2(p - 1) <= a < Pow2(p)
    requires Dist(n, a * Pow2(e)) < Pow2(e - 2)
    ensures Round(p, n) == a * Pow2(e)
  {
    FitsRepresentable(p, a * Pow2(e), a, e);
    RoundNearest(p, n, a * Pow2(e));
    RoundRepresentable(p, n);
    Isolated(p, a, e, Round(p, n));
  }

  lemma RoundExact(p: nat, n: nat)
    requires p > 0 && Representable(p, n)
    ensures Round(p, n) == n
  {
    RoundNearest(p, n, n);
  }

  /** Every positive significand can be normalized to p bits. */
  lemma Normalize(p: nat, a: nat) returns (t: nat)
    requires 0 < a < Pow2(p)
    ensures t < p && Pow2(p - 1) <= a * Pow2(t) < Pow2(p)
  {
    BitLenBounds(a);
    var l := BitLen(a);
    if l > p { Pow2Mono(p, l - 1); }
    t := p - l;
    Pow2Add(l - 1, t);
    Pow2Add(l, t);
    MulMono(Pow2(l - 1), a, Pow2(t));
    MulMono(a + 1, Pow2(l), Pow2(t));
    assert (a + 1) * Pow2(t) == a * Pow2(t) + Pow2(t);
  }

  /** Sums and differences of two p-bit values x = a * 2^i and y = b * 2^j, the first with the larger
      exponent: rounding to q >= 2p + 2 bits first does not change the value rounded to p bits. */
  lemma DoubleRounding(p: nat, q: nat, a: nat, i: nat, b: nat, j: nat, n: nat)
    requires p > 0 && q >= 2 * p + 2 && a < Pow2(p) && b < Pow2(p) && i >= j
    requires n == a * Pow2(i) + b * Pow2(j) || n == Dist(a * Pow2(i), b * Pow2(j))
    ensures Round(p, Round(q, n)) == Round(p, n)
  {
    var N := Unscale(a, i, b, j, n);
    Scaled(p, q, a, i, b, j, n, N);
  }

  lemma Scaled(p: nat, q: nat, a: nat, i: nat, b: nat, j: nat, n: nat, N: nat)
    requires p > 0 && q >= 2 * p + 2 && a < Pow2(p) && b < Pow2(p) && i >= j
    requires n == a * Pow2(i) + b * Pow2(j) || n == Dist(a * Pow2(i), b * Pow2(j))
    requires n == N * Pow2(j) && N <= a * Pow2(i - j) + b
    ensures Round(p, Round(q, n)) == Round(p, n)
  {
    if N < Pow2(q) {
      FitsRepresentable(q, n, N, j);
      RoundExact(q, n);
    } else {
      BigSum(p, q, a, i, b, j, n, N);
    }
  }

  /** The common power of two taken out. */
  lemma Unscale(a: nat, i: nat, b: nat, j: nat, n: nat) returns (N: nat)
    requires i >= j && (n == a * Pow2(i) + b * Pow2(j) || n == Dist(a * Pow2(i), b * Pow2(j)))
    ensures n == N * Pow2(j) && N <= a * Pow2(i - j) + b
  {
    Pow2Add(i - j, j);
    MulAssoc(a, Pow2(i - j), Pow2(j));
    N := TakeOut(a * Pow2(i - j), b, Pow2(j), n);
  }

  lemma TakeOut(A: nat, b: nat, w: nat, n: nat) returns (N: nat)
    requires n == A * w + b * w || n == Dist(A * w, b * w)
    ensures n == N * w && N <= A + b
  {
    MulAdd(A, b, w);
    if n == A * w + b * w {
      N := A + b;
    } else if A >= b {
      N := A - b;
      MulAdd(N, b, w);
    } else {
      N := b - A;
      MulAdd(N, A, w);
    }
  }

  /** When the exact result does not fit in q bits, the larger operand is far away from the smaller. */
  lemma BigSum(p: nat, q: nat, a: nat, i: nat, b: nat, j: nat, n: nat, N: nat)
    requires p > 0 && q >= 2 * p + 2 && a < Pow2(p) && b < Pow2(p) && i >= j
    requires Pow2(q) <= N <= a * Pow2(i - j) + b
    requires n == a * Pow2(i) + b * Pow2(j) || n == Dist(a * Pow2(i), b * Pow2(j))
    ensures Round(p, Round(q, n)) == Round(p, n)
  {
    var t := Separated(p, q, a, i - j, b);
    ShiftOut(a, i, t);
    SmallPart(p, b, j, i - t);
    Close(p, q, a * Pow2(t), i - t, a * Pow2(i), b * Pow2(j), n);
  }

  lemma Separated(p: nat, q: nat, a: nat, k: nat, b: nat) returns (t: nat)
    requires p > 0 && q >= 2 * p + 2 && a < Pow2(p) && b < Pow2(p) && Pow2(q) <= a * Pow2(k) + b
    ensures Pow2(p - 1) <= a * Pow2(t) < Pow2(p) && k >= t + p + 3
  {
    if a == 0 { Pow2Mono(p, q); }
    t := Normalize(p, a);
    FarApart(p, q, a, k, t, b);
  }

  lemma ShiftOut(a: nat, i: nat, t: nat)
    requires t <= i
    ensures a * Pow2(i) == (a * Pow2(t)) * Pow2(i - t)
  {
    Pow2Add(t, i - t);
    MulAssoc(a, Pow2(t), Pow2(i - t));
  }

  /** Both roundings land on the larger operand. */
  lemma Close(p: nat, q: nat, c: nat, e: nat, x: nat, y: nat, n: nat)
    requires 0 < p <= q && e > 1 && Pow2(p - 1) <= c < Pow2(p) && x == c * Pow2(e)
    requires 2 * y < Pow2(e - 2)
    requires n == x + y || n == Dist(x, y)
    ensures Round(p, Round(q, n)) == Round(p, n)
  {
    MulMono(1, c, Pow2(e));
    Pow2Mono(e - 2, e);
    RoundsTo(p, c, e, n);
    Pow2Mono(p, q);
    FitsRepresentable(q, x, c, e);
    RoundNearest(q, n, x);
    RoundsTo(p, c, e, Round(q, n));
  }

  lemma SmallPart(p: nat, b: nat, j: nat, e: nat)
    requires b < Pow2(p) && e >= p + 3 + j
    ensures 2 * (b * Pow2(j)) < Pow2(e - 2)
  {
    MulStep(b, Pow2(p), Pow2(j));
    Pow2Add(p, j);
    Pow2Mono(p + j + 1, e - 2);
  }

  lemma FarApart(p: nat, q: nat, a: nat, k: nat, t: nat, b: nat)
    requires p > 0 && q >= 2 * p + 2 && b < Pow2(p) && t < p
    requires a * Pow2(t) < Pow2(p)
    requires Pow2(q) <= a * Pow2(k) + b
    ensures k >= t + p + 3
  {
    if k < t + p + 3 {
      TooClose(p, q, a, k, t, b);
    }
  }

  /** (2^p - 1) * 2^m, plus less than 2^p, stays below 2^q for m = p + 2. */
  lemma TooClose(p: nat, q: nat, a: nat, k: nat, t: nat, b: nat)
    requires q >= 2 * p + 2 && b < Pow2(p) && a * Pow2(t) < Pow2(p) && k <= t + (p + 2)
    ensures a * Pow2(k) + b < Pow2(q)
  {
    Pow2ProductAbove(t, p + 2, k);
    Pow2ProductBelow(p, p + 2, q);
    Pow2Mono(p, p + 2);
    UpperSum(a, b, Pow2(k), Pow2(t), Pow2(p + 2), Pow2(p), Pow2(q));
  }

  lemma UpperSum(a: nat, b: nat, k: nat, t: nat, m: nat, p: nat, q: nat)
    requires k <= t * m && a * t < p && p * m <= q && b < p <= m
    ensures a * k + b < q
  {
    MulMono(k, t * m, a);
    MulAssoc(a, t, m);
    MulStep(a * t, p, m);
  }

  lemma DivideOut(c: nat, d: nat)
    requires d > 0
    ensures (c * d) / d == c
  {
    DivUnique(c * d, d, c, 0);
  }

  /** The normalized significand of a p-bit value that has at least p bits. */
  lemma Significand(p: nat, n: nat) returns (s: nat)
    requires p > 0 && n >= Pow2(p - 1) && Representable(p, n)
    ensures BitLen(n) >= p && n == s * Pow2(BitLen(n) - p) && Pow2(p - 1) <= s < Pow2(p)
  {
    var c: nat, k: nat :| Fits(p, n, c, k);
    assert c > 0;
    var t := Normalize(p, c);
    s := c * Pow2(t);
    NormalizedLength(p, s, n, c, k, t);
  }

  lemma NormalizedLength(p: nat, s: nat, n: nat, c: nat, k: nat, t: nat)
    requires p > 0 && n >= Pow2(p - 1) && n == c * Pow2(k) && s == c * Pow2(t) && Pow2(p - 1) <= s < Pow2(p)
    ensures k >= t && BitLen(n) == p + (k - t) && n == s * Pow2(k - t)
  {
    if k < t {
      BelowHalf(n, s, c, k, t);
    } else {
      ShiftOut(c, k, t);
      Pow2Add(p - 1, k - t);
      Pow2Add(p, k - t);
      MulMono(Pow2(p - 1), s, Pow2(k - t));
      MulStep(s, Pow2(p), Pow2(k - t));
      BitLenUnique(n, p + (k - t));
    }
  }

  lemma BelowHalf(n: nat, s: nat, c: nat, k: nat, t: nat)
    requires n == c * Pow2(k) && s == c * Pow2(t) && k < t
    ensures 2 * n <= s
  {
    Pow2Mono(k + 1, t);
    MulMono(Pow2(k + 1), Pow2(t), c);
    assert c * Pow2(k + 1) == 2 * n;
  }

  // ---- scaling ----

  /** Rounding commutes with multiplication by a power of two, for values that do not fit and values that do. */
  lemma RoundScaled(p: nat, n: nat, k: nat)
    requires p > 0
    ensures Round(p, n * Pow2(k)) == Round(p, n) * Pow2(k)
  {
    if n < Pow2(p) {
      FitsRepresentable(p, n * Pow2(k), n, k);
      RoundExact(p, n * Pow2(k));
    } else {
      LongerThanP(p, n);
      var l := BitLen(n);
      Pow2Add(l - 1, k);
      Pow2Add(l, k);
      MulMono(Pow2(l - 1), n, Pow2(k));
      MulStep(n, Pow2(l), Pow2(k));
      BitLenUnique(n * Pow2(k), l + k);
      Pow2Mono(p, l + k - 1);
      Pow2Add(l - p, k);
      UnitScaled(n, Pow2(l - p), Pow2(k));
    }
  }

  lemma UnitScaled(n: nat, u: nat, w: nat)
    requires u > 0 && w > 0
    ensures u * w > 0 && RoundUnit(n * w, u * w) == RoundUnit(n, u) * w
  {
    var q, r := n / u, n % u;
    assert n == q * u + r;
    MulAdd(q * u, r, w);
    MulAssoc(q, u, w);
    MulStep(r, u, w);
    MulMono(1, u, w);
    DivUnique(n * w, u * w, q, r * w);
    assert n * w / (u * w) == q && n * w % (u * w) == r * w;
    HalfScaled(r, u, w);
    MulAdd(q, 1, u * w);
    MulAdd(q, 1, u);
    MulAdd(q * u, u, w);
  }

  /** Comparing with one half of the unit does not depend on the scale. */
  lemma HalfScaled(r: nat, u: nat, w: nat)
    requires w > 0
    ensures 2 * (r * w) < u * w <==> 2 * r < u
    ensures 2 * (r * w) == u * w <==> 2 * r == u
  {
    assert 2 * (r * w) == (2 * r) * w;
    if 2 * r < u { MulStep(2 * r, u, w); }
    if u < 2 * r { MulStep(u, 2 * r, w); }
  }

  /** Rounding does not leave the binade, but for its upper end. */
  lemma RoundBetween(p: nat, n: nat, l: nat)
    requires p > 0 && l > 0 && Pow2(l - 1) <= n < Pow2(l)
    ensures Pow2(l - 1) <= Round(p, n) <= Pow2(l)
  {
    PowerRepresentable(p, l - 1);
    PowerRepresentable(p, l);
    RoundNearest(p, n, Pow2(l - 1));
    RoundNearest(p, n, Pow2(l));
  }

  // ---- signed values ----

  datatype Finite = Finite(neg: bool, mag: nat)

  /** An exact sum; zero results are positive unless both operands are negative. */
  function Sum(a: Finite, b: Finite): Finite {
    if a.neg == b.neg then Finite(a.neg, a.mag + b.mag)
    else if a.mag > b.mag then Finite(a.neg, a.mag - b.mag)
    else if a.mag < b.mag then Finite(b.neg, b.mag - a.mag)
    else Finite(false, 0)
  }

  function RoundTo(p: nat, f: Finite): Finite { Finite(f.neg, Round(p, f.mag)) }

  // ---- as signed numbers ----

  function Signed(f: Finite): int { if f.neg then 0 - f.mag else f.mag }

  function Abs(x: int): nat { if x < 0 then -x else x }

  /** Sum is the sum of signed numbers; what is zero is negative when both operands are. */
  lemma SumExact(a: Finite, b: Finite)
    ensures Signed(Sum(a, b)) == Signed(a) + Signed(b) && Sum(a, b).mag == Abs(Signed(a) + Signed(b))
    ensures Signed(a) + Signed(b) != 0 ==> (Sum(a, b).neg <==> Signed(a) + Signed(b) < 0)
    ensures Signed(a) + Signed(b) == 0 ==> (Sum(a, b).neg <==> a.neg && b.neg)
  {}

  /** A magnitude nearest to that of x, zero included, is nearest among signed values too, and has no other ties. */
  lemma SignedNearest(x: int, f: Finite, h: Finite)
    requires Dist(f.mag, Abs(x)) <= Dist(h.mag, Abs(x)) && Dist(f.mag, Abs(x)) <= Dist(0, Abs(x))
    requires x != 0 ==> (f.neg <==> x < 0)
    ensures Abs(Signed(f) - x) <= Abs(Signed(h) - x)
    ensures Abs(Signed(f) - x) == Abs(Signed(h) - x) && Signed(f) != Signed(h) ==>
              Dist(f.mag, Abs(x)) == Dist(h.mag, Abs(x)) && f.mag != h.mag
  {}

  /** What rounds to less than 2^s: all that is nearer to the largest p-bit value below than to 2^s. */
  lemma RoundsBelow(p: nat, s: nat, n: nat)
    requires 0 < p < s
    ensures Round(p, n) < Pow2(s) <==> n < Pow2(s) - Pow2(s - p - 1)
  {
    var q, u, top := LargestBelow(p, s);
    RoundNearest(p, n, top);
    PowerRepresentable(p, s);
    RoundNearest(p, n, Pow2(s));
    NearerTo(Round(p, n), n, top, Pow2(s), Pow2(s - p - 1));
    if Pow2(s) - Pow2(s - p - 1) <= n < Pow2(s) { RoundsUp(p, s, n, u, q, top); }
  }

  /** The largest p-bit value below 2^s is one unit below it. */
  lemma LargestBelow(p: nat, s: nat) returns (q: nat, u: nat, top: nat)
    requires 0 < p < s
    ensures u == Pow2(s - p) == 2 * Pow2(s - p - 1) && q % 2 == 1
    ensures Representable(p, top) && top == q * u && top + u == Pow2(s)
  {
    q, u := Pow2(p) - 1, Pow2(s - p);
    top := q * u;
    Pow2Add(p, s - p);
    OneLess(Pow2(p), u);
    FitsRepresentable(p, top, q, s - p);
  }

  lemma OneLess(a: nat, b: nat)
    requires a > 0
    ensures (a - 1) * b + b == a * b
  {
    MulAdd(a - 1, 1, b);
  }

  lemma NearerTo(r: nat, n: nat, a: nat, b: nat, half: nat)
    requires half > 0 && a + 2 * half == b && Dist(r, n) <= Dist(a, n) && Dist(r, n) <= Dist(b, n)
    ensures n < b - half ==> r < b
    ensures n >= b ==> r >= b
  {}

  lemma RoundsUp(p: nat, s: nat, n: nat, u: nat, q: nat, top: nat)
    requires 0 < p < s && u == Pow2(s - p) && u > 0 && q % 2 == 1 && top == q * u && top + u == Pow2(s)
    requires 2 * (Pow2(s) - n) <= u && n < Pow2(s)
    ensures Round(p, n) == Pow2(s)
  {
    Pow2Mono(p, s - 1);
    Pow2Mono(s - p, s - 1);
    BitLenUnique(n, s);
    HalfUp(n, u, q, top);
  }

  lemma HalfUp(n: nat, u: nat, q: nat, top: nat)
    requires u > 0 && top == q * u && top <= n < top + u && 2 * (top + u - n) <= u && q % 2 == 1
    ensures RoundUnit(n, u) == top + u
  {
    DivUnique(n, u, q, n - top);
    MulAdd(q, 1, u);
  }
}
