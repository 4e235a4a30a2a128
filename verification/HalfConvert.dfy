/** The host's float <-> half conversions, on bit patterns: binary32 as a 32-bit word, binary16 as a 16-bit
    one (sections 3.4 and 3.6 of IEEE 754-2008), and their meaning as truncation (section 4.3.2). */
module HalfConvert {
  import opened Bits
  import opened Binary32
  import opened HalfAdd
  import R = Rounding

  /** Unsigned 32-bit subtraction. */
  function Sub(a: nat, b: nat): (r: nat)
    requires a < 0x1_0000_0000 && b < 0x1_0000_0000
    ensures r < 0x1_0000_0000
  {
    (a - b) % 0x1_0000_0000
  }

  /** f2h, operator by operator (`/ 0x1_0000` is `>> 16`, `/ 0x2000` is `>> 13`); comparing with 0.0 equal
      covers both zeros. */
  function F2h(t: Float): (h: Half) {
    if t == 0 || t == 0x8000_0000 then 0
    else
      AndBelow(t, 0x7f80_0000);
      Low16(Or(Or(And(t / 0x1_0000, 0x8000), And(t / 0x2000, 0x03ff)),
               And(Sub(And(t, 0x7f80_0000), 0x3800_0000) / 0x2000, 0x7c00)))
  }

  function Low16(r: nat): Half {
    AndBelow(r, 0xffff);
    And(r, 0xffff)
  }

  /** h2f, operator by operator (`* 0x1_0000 % 0x1_0000_0000` is a 32-bit `<< 16`). */
  function H2f(h: Half): (t: Float) {
    if And(h, 0x7fff) == 0 then 0
    else Or32(And(h, 0x8000) * 0x1_0000 % 0x1_0000_0000,
              Or(And(h, 0x7c00) + 0x1c000, And(h, 0x3ff)) * 0x2000 % 0x1_0000_0000)
  }

  function Or32(a: nat, b: nat): Float
    requires a < 0x1_0000_0000 && b < 0x1_0000_0000
  {
    Powers();
    OrBelow(a, b, 32);
    Or(a, b)
  }

  lemma {:induction false} AndBelow(a: nat, b: nat)
    ensures And(a, b) <= b
    decreases a
  {
    if a > 0 && b > 0 { AndBelow(a / 2, b / 2); }
  }

  lemma {:induction false} OrBelow(a: nat, b: nat, k: nat)
    requires a < Pow2(k) && b < Pow2(k)
    ensures Or(a, b) < Pow2(k)
    decreases k
  {
    if k > 0 { OrBelow(a / 2, b / 2, k - 1); }
  }

  // ---- fields ----

  function HalfPattern(s: nat, e: nat, m: nat): nat { s * 0x8000 + e * 0x400 + m }

  lemma HalfFieldsOf(h: Half)
    ensures h == HalfPattern(h / 0x8000, Exponent(h), Fraction(h)) && h / 0x8000 < 2
  {}

  lemma HalfPatternFields(s: nat, e: nat, m: nat)
    requires s < 2 && e < 32 && m < 0x400
    ensures HalfPattern(s, e, m) < 0x1_0000
    ensures HalfPattern(s, e, m) / 0x8000 == s && Exponent(HalfPattern(s, e, m)) == e && Fraction(HalfPattern(s, e, m)) == m
    ensures HalfPattern(s, e, m) % 0x8000 == e * 0x400 + m
  {
    DivUnique(HalfPattern(s, e, m), 0x400, s * 32 + e, m);
    DivUnique(s * 32 + e, 32, s, e);
    DivUnique(HalfPattern(s, e, m), 0x8000, s, e * 0x400 + m);
  }

  /** Sign, fraction and exponent fields joined in the order f2h joins them. */
  lemma JoinHalf(s: nat, e: nat, m: nat)
    requires s < 2 && e < 32 && m < 0x400
    ensures Or(Or(s * 0x8000, m), e * 0x400) == HalfPattern(s, e, m)
  {
    Powers();
    OrAssoc(s * 0x8000, m, e * 0x400);
    OrDisjoint(e, m, 10);
    OrDisjoint(s, e * 0x400 + m, 15);
  }

  /** A masked field, with the powers of two spelled out. */
  lemma Field(x: nat, lo: nat, w: nat, mask: nat, place: nat, range: nat)
    requires place == Pow2(lo) && range == Pow2(w) && mask == (range - 1) * place
    ensures And(x, mask) == x / place % range * place
  {
    AndField(x, lo, w, mask);
  }

  lemma SignField(t: Float)
    ensures And(t / 0x1_0000, 0x8000) == Sign(t) * 0x8000
  {
    Powers();
    Field(t / 0x1_0000, 15, 1, 0x8000, 0x8000, 2);
    assert t / 0x1_0000 / 0x8000 == t / 0x8000_0000;
  }

  lemma FractionField(t: Float)
    ensures And(t / 0x2000, 0x03ff) == Man(t) / 0x2000 < 0x400
  {
    Powers();
    AndMask(t / 0x2000, 10);
    LowPart(t);
  }

  lemma LowPart(t: Float)
    ensures t / 0x2000 % 0x400 == Man(t) / 0x2000 < 0x400
  {}

  lemma ExponentField(t: Float)
    ensures And(t, 0x7f80_0000) == Exp(t) * 0x80_0000
  {
    Powers();
    Field(t, 23, 8, 0x7f80_0000, 0x80_0000, 0x100);
  }

  lemma BiasedExponent(e: nat)
    requires e < 0x100
    ensures And(Sub(e * 0x80_0000, 0x3800_0000) / 0x2000, 0x7c00) == (e - 112) % 32 * 0x400
  {
    Rebias(e);
    LowExponent(e, (e - 112) % 512);
    Powers();
    Field((e - 112) % 512 * 0x400, 10, 5, 0x7c00, 0x400, 32);
  }

  lemma LowExponent(e: nat, d: nat)
    requires e < 0x100 && d == (e - 112) % 512
    ensures d * 0x400 / 0x400 % 32 * 0x400 == (e - 112) % 32 * 0x400
  {
    DivUnique(d * 0x400, 0x400, d, 0);
    assert d == if e >= 112 then e - 112 else e + 400;
  }

  lemma Rebias(e: nat)
    requires e < 0x100
    ensures Sub(e * 0x80_0000, 0x3800_0000) / 0x2000 == (e - 112) % 512 * 0x400
  {
    if e >= 112 {
      assert Sub(e * 0x80_0000, 0x3800_0000) == (e - 112) * 0x80_0000;
    } else {
      assert Sub(e * 0x80_0000, 0x3800_0000) == (e + 400) * 0x80_0000;
    }
  }

  /** For every pattern but the zeros: the sign is kept, the fraction loses its low 13 bits, and the
      exponent field is (E - 112) mod 32, in range or not. */
  lemma F2hFields(t: Float)
    requires t != 0 && t != 0x8000_0000
    ensures F2h(t) == HalfPattern(Sign(t), (Exp(t) - 112) % 32, Man(t) / 0x2000)
  {
    SignField(t);
    FractionField(t);
    ExponentField(t);
    BiasedExponent(Exp(t));
    JoinHalf(Sign(t), (Exp(t) - 112) % 32, Man(t) / 0x2000);
    KeepLow16(Sign(t), (Exp(t) - 112) % 32, Man(t) / 0x2000);
  }

  lemma KeepLow16(s: nat, e: nat, m: nat)
    requires s < 2 && e < 32 && m < 0x400
    ensures Low16(HalfPattern(s, e, m)) == HalfPattern(s, e, m)
  {
    HalfPatternFields(s, e, m);
    Keep16(HalfPattern(s, e, m));
  }

  lemma Keep16(x: nat)
    requires x < 0x1_0000
    ensures And(x, 0xffff) == x
  {
    Powers();
    MaskKeeps(x, 16, 0x1_0000, 0xffff);
  }

  lemma MaskKeeps(x: nat, k: nat, range: nat, mask: nat)
    requires range == Pow2(k) && mask == range - 1 && x < range
    ensures And(x, mask) == x
  {
    AndMask(x, k);
    DivUnique(x, range, 0, x);
  }

  /** For every half but the zeros: the exponent is rebiased by 112, all else is kept. */
  lemma H2fFields(h: Half)
    requires h % 0x8000 != 0
    ensures H2f(h) == Pattern(h / 0x8000, Exponent(h) + 112, Fraction(h) * 0x2000)
  {
    LowMask(h);
    SignMask(h);
    ExponentMask(h);
    JoinFloat(h / 0x8000, Exponent(h) + 112, Fraction(h));
  }

  lemma LowMask(h: Half)
    ensures And(h, 0x7fff) == h % 0x8000 && And(h, 0x3ff) == Fraction(h)
  {
    Powers();
    AndMask(h, 15);
    AndMask(h, 10);
  }

  lemma SignMask(h: Half)
    ensures And(h, 0x8000) == h / 0x8000 * 0x8000
  {
    assert 0x8000 == Pow2(15) && 2 == Pow2(1) by { Powers(); }
    Field(h, 15, 1, 0x8000, 0x8000, 2);
    TopBit(h);
  }

  lemma TopBit(h: Half)
    ensures h / 0x8000 % 2 == h / 0x8000
  {}

  lemma ExponentMask(h: Half)
    ensures And(h, 0x7c00) == Exponent(h) * 0x400
  {
    Powers();
    Field(h, 10, 5, 0x7c00, 0x400, 32);
  }

  lemma JoinFloat(s: nat, e: nat, m: nat)
    requires s < 2 && e < 0x100 && m < 0x400
    ensures Or32(s * 0x8000 * 0x1_0000 % 0x1_0000_0000, Or(e * 0x400, m) * 0x2000 % 0x1_0000_0000)
         == Pattern(s, e, m * 0x2000)
  {
    assert Or(e * 0x400, m) == e * 0x400 + m by { Powers(); OrSpelled(e, m, 10, 0x400); }
    var low := (e * 0x400 + m) * 0x2000;
    NoWrap(s * 0x8000 * 0x1_0000);
    NoWrap(low);
    JoinSign(s, s * 0x8000 * 0x1_0000, low);
  }

  lemma NoWrap(x: nat)
    requires x < 0x1_0000_0000
    ensures x % 0x1_0000_0000 == x
  {}

  lemma JoinSign(s: nat, sign: nat, low: nat)
    requires s < 2 && sign == s * 0x8000_0000 && low < 0x8000_0000
    ensures Or32(sign, low) == sign + low
  {
    Powers();
    OrSpelled(s, low, 31, 0x8000_0000);
  }

  lemma OrSpelled(hi: nat, lo: nat, k: nat, place: nat)
    requires place == Pow2(k) && lo < place
    ensures Or(hi * place, lo) == hi * place + lo
  {
    OrDisjoint(hi, lo, k);
  }

  lemma H2fZero(h: Half)
    requires h % 0x8000 == 0
    ensures H2f(h) == 0
  {
    LowMask(h);
  }

  // ---- values ----

  /** Halves in the normal range, as floats: exponent fields 113 to 142. */
  predicate InRange(t: Float) { 113 <= Exp(t) <= 142 }

  /** Magnitude of such a float in units of 2^-37, of which a half unit has 8192. */
  function Mag(t: Float): nat
    requires Exp(t) >= 113
  {
    (0x80_0000 + Man(t)) * Pow2(Exp(t) - 113)
  }

  lemma NormalValue(s: nat, e: nat, m: nat)
    requires s < 2 && 1 <= e <= 30 && m < 0x400
    ensures HalfPattern(s, e, m) < 0x1_0000 && IsFinite(HalfPattern(s, e, m))
    ensures Value(HalfPattern(s, e, m)).mag == (1024 + m) * Pow2(e - 1)
  {
    HalfPatternFields(s, e, m);
  }

  /** Widening is exact: sign and magnitude of a normal half are kept. */
  lemma WidenExact(h: Half)
    requires 1 <= Exponent(h) <= 30
    ensures Sign(H2f(h)) == h / 0x8000 && InRange(H2f(h)) && Mag(H2f(h)) == Value(h).mag * 0x2000
  {
    assert h % 0x8000 != 0 by { LowBits(h); }
    H2fFields(h);
    Widened(h / 0x8000, Exponent(h), Fraction(h));
  }

  lemma Widened(s: nat, e: nat, m: nat)
    requires s < 2 && 1 <= e <= 30 && m < 0x400
    ensures var t := Pattern(s, e + 112, m * 0x2000);
            t < 0x1_0000_0000 && Sign(t) == s && InRange(t) && Mag(t) == (1024 + m) * Pow2(e - 1) * 0x2000
  {
    PatternFields(s, e + 112, m * 0x2000);
    Regroup(m, Pow2(e - 1));
  }

  lemma Regroup(m: nat, p: nat)
    ensures (0x80_0000 + m * 0x2000) * p == (1024 + m) * p * 0x2000
  {
    MulAssoc(0x2000, 1024 + m, p);
  }

  lemma LowBits(h: Half)
    ensures h % 0x8000 == Exponent(h) * 0x400 + Fraction(h)
  {
    HalfFieldsOf(h);
    HalfPatternFields(h / 0x8000, Exponent(h), Fraction(h));
  }

  /** What f2h returns in range, by fields. */
  lemma F2hInRange(t: Float) returns (m: nat)
    requires InRange(t)
    ensures m == Man(t) / 0x2000 < 0x400
    ensures F2h(t) == HalfPattern(Sign(t), Exp(t) - 112, m)
    ensures F2h(t) / 0x8000 == Sign(t) && Exponent(F2h(t)) == Exp(t) - 112
    ensures IsFinite(F2h(t)) && Value(F2h(t)).mag == (1024 + m) * Pow2(Exp(t) - 113)
  {
    m := Man(t) / 0x2000;
    NotZero(t);
    F2hFields(t);
    InRangeExponent(Exp(t));
    HalfPatternFields(Sign(t), Exp(t) - 112, m);
    NormalValue(Sign(t), Exp(t) - 112, m);
  }

  lemma NotZero(t: Float)
    requires InRange(t)
    ensures t != 0 && t != 0x8000_0000 && Sign(t) < 2 && Man(t) / 0x2000 < 0x400
  {}

  lemma InRangeExponent(e: nat)
    requires 113 <= e <= 142
    ensures (e - 112) % 32 == e - 112
  {}

  /** In range, f2h keeps the sign and truncates: its magnitude is at most the float's, closer than one unit
      in the last place of the half (2^(e-10) for a float of exponent e), and no finite half in between. */
  lemma F2hTruncates(t: Float, y: Half)
    requires InRange(t) && IsFinite(y)
    ensures F2h(t) / 0x8000 == Sign(t) && IsFinite(F2h(t))
    ensures Value(F2h(t)).mag * 0x2000 <= Mag(t) < Value(F2h(t)).mag * 0x2000 + 0x2000 * Pow2(Exp(t) - 113)
    ensures Value(y).mag * 0x2000 <= Mag(t) ==> Value(y).mag <= Value(F2h(t)).mag
  {
    var m := F2hInRange(t);
    Brackets(Man(t), m, Pow2(Exp(t) - 113));
    NoneBetween(t, y, m);
  }

  lemma NoneBetween(t: Float, y: Half, m: nat)
    requires InRange(t) && IsFinite(y) && m == Man(t) / 0x2000
    ensures Value(y).mag * 0x2000 <= Mag(t) ==> Value(y).mag <= (1024 + m) * Pow2(Exp(t) - 113)
  {
    if Value(y).mag * 0x2000 <= Mag(t) {
      BelowTruncated(y, Exp(t) - 112, Man(t));
    }
  }

  lemma Brackets(man: nat, m: nat, p: nat)
    requires m == man / 0x2000 && p > 0
    ensures (1024 + m) * p * 0x2000 <= (0x80_0000 + man) * p < (1024 + m) * p * 0x2000 + 0x2000 * p
  {
    var low := (1024 + m) * 0x2000;
    assert low <= 0x80_0000 + man < low + 0x2000;
    MulMono(low, 0x80_0000 + man, p);
    MulStep(0x80_0000 + man, low + 0x2000, p);
    MulAdd(low, 0x2000, p);
    MulAssoc(0x2000, 1024 + m, p);
  }

  lemma BelowTruncated(y: Half, e: nat, man: nat)
    requires IsFinite(y) && 1 <= e <= 30 && man < 0x80_0000
    requires Value(y).mag * 0x2000 <= (0x80_0000 + man) * Pow2(e - 1)
    ensures Value(y).mag <= (1024 + man / 0x2000) * Pow2(e - 1)
  {
    var p, m := Pow2(e - 1), man / 0x2000;
    Brackets(man, m, p);
    if Exponent(y) == 0 {
      MulMono(1, p, 1024);
    } else if Exponent(y) < e {
      Pow2Mono(Exponent(y), e - 1);
      SmallerExponent(1024 + Fraction(y), Pow2(Exponent(y) - 1), m, p);
    } else if Exponent(y) == e {
      SameExponent(1024 + Fraction(y), 1024 + m, p);
    } else {
      Pow2Mono(e, Exponent(y) - 1);
      LargerExponent(1024 + Fraction(y), Pow2(Exponent(y) - 1), man, p);
    }
  }

  lemma SmallerExponent(c: nat, q: nat, m: nat, p: nat)
    requires c < 2048 && 2 * q <= p
    ensures c * q <= (1024 + m) * p
  {
    MulMono(c, 2048, q);
    MulMono(1024, 1024 + m, p);
  }

  lemma SameExponent(c: nat, d: nat, p: nat)
    requires c * p * 0x2000 < d * p * 0x2000 + 0x2000 * p
    ensures c * p <= d * p
  {
    if c > d { MulStep(d, c, p); }
    if c <= d { MulMono(c, d, p); }
  }

  lemma LargerExponent(c: nat, q: nat, man: nat, p: nat)
    requires c >= 1024 && q >= 2 * p && p > 0 && man < 0x80_0000
    ensures c * q * 0x2000 > (0x80_0000 + man) * p
  {
    MulMono(1024, c, q);
    MulStep(0x80_0000 + man, 0x100_0000, p);
  }

  function Signed(neg: bool, mag: nat): int { if neg then 0 - mag else mag }

  /** A float in range or a zero, in units of 2^-37. */
  function SignedMag(t: Float): int
    requires InRange(t) || t % 0x8000_0000 == 0
  {
    if t % 0x8000_0000 == 0 then 0 else Signed(Sign(t) == 1, Mag(t))
  }

  function SignedValue(h: Half): int
    requires IsFinite(h)
  {
    Signed(Value(h).neg, Value(h).mag)
  }

  /** Larger floats never convert to smaller halves, whatever their signs; zeros included. */
  lemma F2hMonotone(t: Float, u: Float)
    requires (InRange(t) || t % 0x8000_0000 == 0) && (InRange(u) || u % 0x8000_0000 == 0)
    requires SignedMag(t) <= SignedMag(u)
    ensures IsFinite(F2h(t)) && IsFinite(F2h(u)) && SignedValue(F2h(t)) <= SignedValue(F2h(u))
  {
    HalfOf(t);
    HalfOf(u);
    if InRange(t) && InRange(u) {
      if Mag(t) <= Mag(u) { MagnitudeMonotone(t, u); }
      if Mag(u) <= Mag(t) { MagnitudeMonotone(u, t); }
      SignedOrder(Sign(t) == 1, Mag(t), Value(F2h(t)).mag, Sign(u) == 1, Mag(u), Value(F2h(u)).mag);
    }
  }

  /** Magnitudes in the same order have signed values in the same order. */
  lemma SignedOrder(n: bool, a: nat, x: nat, n': bool, b: nat, y: nat)
    requires Signed(n, a) <= Signed(n', b) && a > 0 && b > 0 && (a <= b ==> x <= y) && (b <= a ==> y <= x)
    ensures Signed(n, x) <= Signed(n', y)
  {}

  /** The half of a float: zero for zeros, else one with the same sign. */
  lemma HalfOf(t: Float)
    requires InRange(t) || t % 0x8000_0000 == 0
    ensures IsFinite(F2h(t))
    ensures t % 0x8000_0000 == 0 ==> SignedMag(t) == 0 && SignedValue(F2h(t)) == 0
    ensures InRange(t) ==>
              && Mag(t) > 0 && SignedMag(t) == Signed(Sign(t) == 1, Mag(t))
              && SignedValue(F2h(t)) == Signed(Sign(t) == 1, Value(F2h(t)).mag)
  {
    if InRange(t) {
      F2hTruncates(t, 0);
      HalfOfNormal(t, F2h(t));
      NotZeroFloat(t);
    } else {
      HalfOfZero(t);
      assert !InRange(t);
    }
  }

  lemma HalfOfNormal(t: Float, h: Half)
    requires InRange(t) && IsFinite(h) && h / 0x8000 == Sign(t)
    ensures Mag(t) > 0 && SignedMag(t) == Signed(Sign(t) == 1, Mag(t))
    ensures SignedValue(h) == Signed(Sign(t) == 1, Value(h).mag)
  {
    MulMono(1, Pow2(Exp(t) - 113), 0x80_0000 + Man(t));
    NotZeroFloat(t);
    SignBit(h);
  }

  lemma NotZeroFloat(t: Float)
    requires InRange(t)
    ensures t % 0x8000_0000 != 0
  {}

  lemma SignBit(h: Half)
    requires IsFinite(h)
    ensures Value(h).neg <==> h / 0x8000 == 1
  {}

  lemma HalfOfZero(t: Float)
    requires t % 0x8000_0000 == 0
    ensures F2h(t) == 0 && IsFinite(0) && SignedValue(0) == 0
  {
    TwoZeros(t);
    F2hZero(t);
    PositiveZero(0);
  }

  lemma TwoZeros(t: Float)
    requires t % 0x8000_0000 == 0
    ensures t == 0 || t == 0x8000_0000
  {}

  lemma F2hZero(t: Float)
    requires t == 0 || t == 0x8000_0000
    ensures F2h(t) == 0
  {}

  lemma PositiveZero(h: Half)
    requires h == 0
    ensures IsFinite(h) && SignedValue(h) == 0
  {}

  lemma MagnitudeMonotone(t: Float, u: Float)
    requires InRange(t) && InRange(u) && Mag(t) <= Mag(u)
    ensures IsFinite(F2h(t)) && IsFinite(F2h(u)) && Value(F2h(t)).mag <= Value(F2h(u)).mag
  {
    F2hTruncates(t, 0);
    F2hTruncates(u, F2h(t));
  }

  /** Converting to float and back restores every half, infinities, NaNs and denormals included, except
      negative zero. */
  lemma HalfRoundTrip(h: Half)
    ensures F2h(H2f(h)) == h <==> h != 0x8000
  {
    if h == 0 || h == 0x8000 {
      H2fZero(h);
    } else {
      OtherBits(h);
      HalfFieldsOf(h);
      ThroughFloat(h, h / 0x8000, Exponent(h), Fraction(h));
    }
  }

  lemma OtherBits(h: Half)
    requires h != 0 && h != 0x8000
    ensures h % 0x8000 != 0
  {}

  lemma ThroughFloat(h: Half, s: nat, e: nat, m: nat)
    requires h % 0x8000 != 0 && s == h / 0x8000 && e == Exponent(h) && m == Fraction(h) && h == HalfPattern(s, e, m)
    ensures F2h(H2f(h)) == h
  {
    H2fFields(h);
    BackToHalf(s, e, m);
  }

  lemma BackToHalf(s: nat, e: nat, m: nat)
    requires s < 2 && e < 32 && m < 0x400
    ensures Pattern(s, e + 112, m * 0x2000) < 0x1_0000_0000
    ensures F2h(Pattern(s, e + 112, m * 0x2000)) == HalfPattern(s, e, m)
  {
    PatternFields(s, e + 112, m * 0x2000);
    F2hFields(Pattern(s, e + 112, m * 0x2000));
    SameFields(e, m);
  }

  lemma SameFields(e: nat, m: nat)
    requires e < 32
    ensures (e + 112 - 112) % 32 == e && m * 0x2000 / 0x2000 == m
  {}

  /** Converting a nonzero float to half and back only clears its low 13 fraction bits exactly when the
      exponent survives the wrap-around and the half is not mistaken for zero. */
  lemma FloatRoundTrip(t: Float)
    requires t != 0 && t != 0x8000_0000
    ensures H2f(F2h(t)) == Pattern(Sign(t), Exp(t), Man(t) / 0x2000 * 0x2000)
            <==> 112 <= Exp(t) <= 143 && !(Exp(t) == 112 && Man(t) < 0x2000)
  {
    F2hFields(t);
    RoundTripOf(t, F2h(t));
  }

  lemma RoundTripOf(t: Float, h: Half)
    requires h == HalfPattern(Sign(t), (Exp(t) - 112) % 32, Man(t) / 0x2000)
    ensures H2f(h) == Pattern(Sign(t), Exp(t), Man(t) / 0x2000 * 0x2000)
            <==> 112 <= Exp(t) <= 143 && !(Exp(t) == 112 && Man(t) < 0x2000)
  {
    FieldBounds(t);
    RoundTripFields(Sign(t), Exp(t), Man(t), (Exp(t) - 112) % 32);
  }

  lemma RoundTripFields(s: nat, E: nat, man: nat, e: nat)
    requires s < 2 && E < 0x100 && man < 0x80_0000 && e == (E - 112) % 32
    ensures HalfPattern(s, e, man / 0x2000) < 0x1_0000
    ensures H2f(HalfPattern(s, e, man / 0x2000)) == Pattern(s, E, man / 0x2000 * 0x2000)
            <==> 112 <= E <= 143 && !(E == 112 && man < 0x2000)
  {
    var m := man / 0x2000;
    HalfPatternFields(s, e, m);
    ExponentSurvives(E);
    if e == 0 && m == 0 {
      H2fZero(HalfPattern(s, e, m));
      LostToZero(s, E);
    } else {
      BackToFloat(s, e, m);
      SamePattern(s, e + 112, E, m * 0x2000);
    }
  }

  lemma BackToFloat(s: nat, e: nat, m: nat)
    requires s < 2 && e < 32 && m < 0x400 && (e > 0 || m > 0)
    ensures HalfPattern(s, e, m) < 0x1_0000 && H2f(HalfPattern(s, e, m)) == Pattern(s, e + 112, m * 0x2000)
  {
    HalfPatternFields(s, e, m);
    H2fFields(HalfPattern(s, e, m));
  }

  lemma LostToZero(s: nat, e: nat)
    requires e % 32 == 16
    ensures Pattern(s, e, 0) != 0
  {}

  lemma SamePattern(s: nat, e: nat, e': nat, m: nat)
    ensures Pattern(s, e, m) == Pattern(s, e', m) <==> e == e'
  {}

  lemma ExponentSurvives(e: nat)
    requires e < 0x100
    ensures (e - 112) % 32 + 112 == e <==> 112 <= e <= 143
    ensures (e - 112) % 32 == 0 <==> e % 32 == 16
    ensures 112 <= e <= 143 && e % 32 == 16 ==> e == 112
  {}

  /** So the pair of conversions is idempotent on floats in range. */
  lemma PairIdempotent(t: Float)
    requires InRange(t)
    ensures H2f(F2h(H2f(F2h(t)))) == H2f(F2h(t))
  {
    var m := F2hInRange(t);
    NotNegativeZero(F2h(t));
    HalfRoundTrip(F2h(t));
  }

  lemma NotNegativeZero(h: Half)
    requires Exponent(h) > 0
    ensures h != 0x8000
  {}

  // ---- truncation against rounding to nearest ----

  lemma MagLength(t: Float)
    requires InRange(t)
    ensures BitLen(Mag(t)) == Exp(t) - 89 && Mag(t) >= Pow2(11)
  {
    var k := Exp(t) - 113;
    Powers();
    Pow2Add(23, k);
    Pow2Add(24, k);
    MulMono(0x80_0000, 0x80_0000 + Man(t), Pow2(k));
    MulStep(0x80_0000 + Man(t), 0x100_0000, Pow2(k));
    BitLenUnique(Mag(t), 24 + k);
    Pow2Mono(11, 23 + k);
  }

  lemma UnitRounding(c: nat, r: nat, p: nat, n: nat, u: nat)
    requires p > 0 && r < 0x2000 && n == (c * 0x2000 + r) * p && u == 0x2000 * p
    ensures R.RoundUnit(n, u) == c * u <==> r < 0x1000 || (r == 0x1000 && c % 2 == 0)
  {
    MulAdd(c * 0x2000, r, p);
    MulAssoc(c, 0x2000, p);
    MulStep(r, 0x2000, p);
    DivUnique(n, u, c, r * p);
    if r < 0x1000 { MulStep(r, 0x1000, p); } else { MulMono(0x1000, r, p); }
    if r > 0x1000 { MulStep(0x1000, r, p); }
    MulAdd(c, 1, u);
  }

  /** Truncating a float in range to a half and rounding it to 11 bits give the same magnitude exactly when the
      13 bits that f2h drops are below one half, or are one half and the last kept bit is even. */
  lemma TruncationRounds(t: Float)
    requires InRange(t)
    ensures IsFinite(F2h(t)) && (R.Round(11, Mag(t)) == Value(F2h(t)).mag * 0x2000 <==> DropsLittle(t))
  {
    var m := F2hInRange(t);
    TruncatedPart(t, F2h(t), m);
  }

  predicate DropsLittle(t: Float) {
    Man(t) % 0x2000 < 0x1000 || (Man(t) % 0x2000 == 0x1000 && Man(t) / 0x2000 % 2 == 0)
  }

  lemma TruncatedPart(t: Float, h: Half, m: nat)
    requires InRange(t) && IsFinite(h) && m == Man(t) / 0x2000 && Value(h).mag == (1024 + m) * Pow2(Exp(t) - 113)
    ensures R.Round(11, Mag(t)) == Value(h).mag * 0x2000 <==> DropsLittle(t)
  {
    RoundedMag(t);
    Dropped(Man(t), m, Pow2(Exp(t) - 113));
  }

  /** Rounding a float in range to 11 bits drops 13 bits of its significand. */
  lemma RoundedMag(t: Float)
    requires InRange(t)
    ensures R.Round(11, Mag(t)) == R.RoundUnit(Mag(t), 0x2000 * Pow2(Exp(t) - 113))
  {
    MagLength(t);
    Powers();
    Pow2Add(13, Exp(t) - 113);
  }

  lemma Dropped(man: nat, m: nat, p: nat)
    requires p > 0 && m == man / 0x2000
    ensures R.RoundUnit((0x80_0000 + man) * p, 0x2000 * p) == (1024 + m) * p * 0x2000
            <==> man % 0x2000 < 0x1000 || (man % 0x2000 == 0x1000 && man / 0x2000 % 2 == 0)
  {
    var c, r := 1024 + m, man % 0x2000;
    assert 0x80_0000 + man == c * 0x2000 + r;
    UnitRounding(c, r, p, (0x80_0000 + man) * p, 0x2000 * p);
    MulAssoc(c, p, 0x2000);
  }
}
