/** The host's check of the fp16 storage kernel: it adds the widened operands itself, but truncates the sum where the
    kernel rounds it to nearest. Exactly which sums it accepts. */
module HostCheck {
  import opened Bits
  import opened Rounding
  import opened Binary32
  import opened HalfAdd
  import opened HalfConvert

  /** The halves that the host's conversions support: normal numbers and zeros. */
  predicate Supported(h: Half) { 1 <= Exponent(h) <= 30 || h % 0x8000 == 0 }

  predicate ZeroFloat(t: Float) { t % 0x8000_0000 == 0 }

  /** What the kernel stores. */
  function Stored(a: Half, b: Half, flush: bool): Half
    requires IsFinite(a) && IsFinite(b)
  {
    CvtF16F32(AddF32(CvtF32F16(a, flush), CvtF32F16(b, flush)), flush)
  }

  /** f1 + f2 in the host's Verify. */
  function HostSum(a: Half, b: Half): Float { AddFloat(H2f(a), H2f(b)) }

  /** res == expected in the host's Verify; h2f never returns a negative zero. */
  predicate Accepts(a: Half, b: Half, flush: bool)
    requires IsFinite(a) && IsFinite(b)
  {
    H2f(Stored(a, b, flush)) == H2f(F2h(HostSum(a, b)))
  }

  // ---- the host adds the same numbers, in smaller units ----

  /** y is x in units w times smaller; the sign of a zero does not matter. */
  predicate ScaledBy(x: Finite, y: Finite, w: nat) { y.mag == x.mag * w && (x.mag > 0 ==> x.neg == y.neg) }

  lemma SumScaled(x: Finite, y: Finite, x': Finite, y': Finite, w: nat)
    requires w > 0 && ScaledBy(x, x', w) && ScaledBy(y, y', w)
    ensures ScaledBy(Sum(x, y), Sum(x', y'), w)
  {
    MulAdd(x.mag, y.mag, w);
    if x.mag >= y.mag { Difference(x.mag, y.mag, w); }
    if y.mag >= x.mag { Difference(y.mag, x.mag, w); }
    SumOfParts(x, y, x', y', Sum(x, y).mag * w);
  }

  lemma Difference(a: nat, b: nat, w: nat)
    requires a >= b && w > 0
    ensures (a - b) * w == a * w - b * w && a * w >= b * w && (a * w == b * w <==> a == b)
  {
    MulAdd(a - b, b, w);
    MulMono(b, a, w);
    if a > b { MulStep(b, a, w); }
  }

  /** The sum r of scaled magnitudes, from their order and their sums and differences. */
  lemma SumOfParts(x: Finite, y: Finite, x': Finite, y': Finite, r: nat)
    requires (x.mag > 0 ==> x.neg == x'.neg && x'.mag > 0) && (y.mag > 0 ==> y.neg == y'.neg && y'.mag > 0)
    requires (x.mag == 0 ==> x'.mag == 0) && (y.mag == 0 ==> y'.mag == 0)
    requires (x.mag >= y.mag <==> x'.mag >= y'.mag) && (y.mag >= x.mag <==> y'.mag >= x'.mag)
    requires Sum(x, y).mag == x.mag + y.mag ==> r == x'.mag + y'.mag
    requires x.mag >= y.mag && Sum(x, y).mag == x.mag - y.mag ==> r == x'.mag - y'.mag
    requires y.mag >= x.mag && Sum(x, y).mag == y.mag - x.mag ==> r == y'.mag - x'.mag
    ensures Sum(x', y').mag == r && (Sum(x, y).mag > 0 ==> Sum(x, y).neg == Sum(x', y').neg)
  {}

  lemma RoundToScaled(x: Finite, y: Finite, k: nat)
    requires ScaledBy(x, y, Pow2(k))
    ensures ScaledBy(RoundTo(24, x), RoundTo(24, y), Pow2(k))
  {
    RoundScaled(24, x.mag, k);
    if x.mag == 0 {
      FitsRepresentable(24, 0, 0, 0);
      RoundExact(24, 0);
    }
  }

  /** A float from the normal half range on, in units of 2^-149, is its magnitude in units of 2^-37; k is 112. */
  lemma UnitsOf(t: Float, k: nat)
    requires Exp(t) >= 113 && k + 1 == 113
    ensures FloatValue(t).mag == Mag(t) * Pow2(k)
  {
    Pow2Add(Exp(t) - 113, k);
    MulAssoc(0x80_0000 + Man(t), Pow2(Exp(t) - 113), Pow2(k));
  }

  lemma Thirteen(n: nat, k: nat)
    ensures n * 0x2000 * Pow2(k) == n * Pow2(k + 13)
  {
    Powers();
    Pow2Add(13, k);
    MulAssoc(n, 0x2000, Pow2(k));
  }

  lemma NormalWidened(h: Half, k: nat)
    requires 1 <= Exponent(h) <= 30 && k + 1 == 113
    ensures ScaledBy(Value(h), FloatValue(H2f(h)), Pow2(k + 13))
  {
    WidenExact(h);
    UnitsOf(H2f(h), k);
    Thirteen(Value(h).mag, k);
  }

  lemma Widened(h: Half, flush: bool, k: nat)
    requires Supported(h) && k + 1 == 113
    ensures IsFinite(h) && ScaledBy(CvtF32F16(h, flush), FloatValue(H2f(h)), Pow2(k + 13))
  {
    if h % 0x8000 == 0 {
      H2fZero(h);
      ZeroWidened(h, flush, k);
    } else {
      NormalWidened(h, k);
      NormalKept(h, flush);
    }
  }

  lemma ZeroWidened(h: Half, flush: bool, k: nat)
    requires h % 0x8000 == 0
    ensures IsFinite(h) && ScaledBy(CvtF32F16(h, flush), FloatValue(0), Pow2(k + 13))
  {
    ZeroHalf(h);
    ZeroFloatValue(0);
  }

  lemma ZeroHalf(h: Half)
    requires h % 0x8000 == 0
    ensures IsFinite(h) && Value(h).mag == 0
  {
    LowBits(h);
  }

  lemma ZeroFloatValue(t: Float)
    requires t == 0
    ensures FloatValue(t).mag == 0
  {
    assert Exp(t) == 0 && Man(t) == 0;
  }

  lemma NormalKept(h: Half, flush: bool)
    requires 1 <= Exponent(h) <= 30
    ensures CvtF32F16(h, flush) == Value(h)
  {
    MulMono(1, Pow2(Exponent(h) - 1), 1024 + Fraction(h));
  }

  // ---- sizes ----

  lemma HalfSize(h: Half, flush: bool, top: nat)
    requires IsFinite(h) && top == Pow2(40)
    ensures CvtF32F16(h, flush).mag < top
  {
    var c, k := HalfFits(h, flush);
    BelowTop(c, k, top);
  }

  lemma BelowTop(c: nat, k: nat, top: nat)
    requires c < Pow2(11) && k <= 29 && top == Pow2(40)
    ensures c * Pow2(k) < top
  {
    MulStep(c, Pow2(11), Pow2(k));
    Pow2Add(11, k);
    Pow2Mono(11 + k, 40);
  }

  lemma RoundBelow(p: nat, n: nat, s: nat)
    requires p > 0 && n <= Pow2(s)
    ensures Round(p, n) <= Pow2(s)
  {
    PowerRepresentable(p, s);
    RoundNearest(p, n, Pow2(s));
  }

  lemma BitLenBelow(n: nat, s: nat)
    requires n <= Pow2(s)
    ensures BitLen(n) <= s + 1
  {
    if n > 0 {
      BitLenBounds(n);
      Pow2Order(BitLen(n) - 1, s);
    }
  }

  /** The host's sum holds the rounded sum of the kernel. */
  lemma HostSumIs(a: Half, b: Half, flush: bool, k: nat)
    requires Supported(a) && Supported(b) && k + 1 == 113
    ensures IsFinite(a) && IsFinite(b)
    ensures ScaledBy(AddF32(CvtF32F16(a, flush), CvtF32F16(b, flush)), FloatValue(HostSum(a, b)), Pow2(k + 13))
  {
    Widened(a, flush, k);
    Widened(b, flush, k);
    var x, y := CvtF32F16(a, flush), CvtF32F16(b, flush);
    var x', y' := FloatValue(H2f(a)), FloatValue(H2f(b));
    SumScaled(x, y, x', y', Pow2(k + 13));
    RoundToScaled(Sum(x, y), Sum(x', y'), k + 13);
    SumSize(a, b, flush);
    HostSumFits(Sum(x', y'), AddF32(x, y).mag, k);
  }

  lemma SumSize(a: Half, b: Half, flush: bool)
    requires IsFinite(a) && IsFinite(b)
    ensures AddF32(CvtF32F16(a, flush), CvtF32F16(b, flush)).mag <= Pow2(41)
  {
    var top := Pow2(40);
    HalfSize(a, flush, top);
    HalfSize(b, flush, top);
    SumBelow(CvtF32F16(a, flush), CvtF32F16(b, flush), top);
    assert Pow2(41) == 2 * top;
    RoundBelow(24, Sum(CvtF32F16(a, flush), CvtF32F16(b, flush)).mag, 41);
  }

  lemma SumBelow(x: Finite, y: Finite, top: nat)
    requires x.mag < top && y.mag < top
    ensures Sum(x, y).mag <= 2 * top
  {}

  lemma HostSumFits(sum: Finite, n: nat, k: nat)
    requires k + 1 == 113 && n <= Pow2(41) && Round(24, sum.mag) == n * Pow2(k + 13)
    ensures FloatValue(FloatBits(RoundTo(24, sum))) == RoundTo(24, sum)
  {
    MulMono(n, Pow2(41), Pow2(k + 13));
    Pow2Add(41, k + 13);
    BitLenBelow(Round(24, sum.mag), 41 + (k + 13));
    RoundRepresentable(24, sum.mag);
    FloatBitsValue(RoundTo(24, sum));
  }

  // ---- what the kernel stores against what the host expects ----

  lemma Cancel(a: nat, b: nat, w: nat)
    requires w > 0 && a * w == b * w
    ensures a == b
  {
    if a < b { MulStep(a, b, w); }
    if b < a { MulStep(b, a, w); }
  }

  /** The kernel's f32 sum has the sign and the magnitude of a host sum from the normal half range on. */
  lemma SameSum(a: Half, b: Half, flush: bool, k: nat)
    requires Supported(a) && Supported(b) && Exp(HostSum(a, b)) >= 113 && k + 1 == 113
    ensures IsFinite(a) && IsFinite(b)
    ensures var s, t := AddF32(CvtF32F16(a, flush), CvtF32F16(b, flush)), HostSum(a, b);
            Mag(t) == s.mag * 0x2000 && s.mag >= 1024 && (s.neg <==> Sign(t) == 1)
  {
    HostSumIs(a, b, flush, k);
    SameMagnitude(AddF32(CvtF32F16(a, flush), CvtF32F16(b, flush)), HostSum(a, b), k);
  }

  lemma SameMagnitude(s: Finite, t: Float, k: nat)
    requires Exp(t) >= 113 && k + 1 == 113 && ScaledBy(s, FloatValue(t), Pow2(k + 13))
    ensures Mag(t) == s.mag * 0x2000 && s.mag >= 1024 && (s.neg <==> Sign(t) == 1)
  {
    UnitsOf(t, k);
    Thirteen(s.mag, k);
    Cancel(Mag(t), s.mag * 0x2000, Pow2(k));
    NormalMag(t);
  }

  lemma NormalMag(t: Float)
    requires Exp(t) >= 113
    ensures Mag(t) >= 0x80_0000
  {
    MulMono(1, Pow2(Exp(t) - 113), 0x80_0000 + Man(t));
  }

  lemma RoundAtLeast(n: nat)
    requires n >= 1024
    ensures Round(11, n) >= 1024
  {
    Pow2Eleven();
    PowerRepresentable(11, 10);
    RoundNearest(11, n, Pow2(10));
  }

  lemma RoundScaled13(n: nat)
    ensures Round(11, n * 0x2000) == Round(11, n) * 0x2000
  {
    Powers();
    RoundScaled(11, n, 13);
  }

  /** Encoding gives back a normal half, and nothing else with its value. */
  lemma EncodesTo(f: Finite, h: Half)
    requires f.mag >= 1024 && Representable(11, f.mag) && 1 <= Exponent(h) <= 30
    ensures Encode(f) == h <==> f == Value(h)
  {
    if f.mag < Pow2(40) {
      EncodeValue(f);
      if f == Value(h) { EncodeNormalHalf(h); }
    } else {
      TooLarge(f);
      HalfSize(h, false, Pow2(40));
    }
  }

  lemma EncodeNormalHalf(h: Half)
    requires 1 <= Exponent(h) <= 30
    ensures Encode(Value(h)) == h
  {
    var c, e := 1024 + Fraction(h), Exponent(h);
    SignificandLength(c, e - 1, c * Pow2(e - 1));
    EncodeNormal(Value(h), c, e);
    HalfFieldsOf(h);
    SignOf(h);
  }

  lemma SignificandLength(c: nat, i: nat, n: nat)
    requires 1024 <= c < 2048 && n == c * Pow2(i)
    ensures BitLen(n) == i + 11 && n >= 1024
  {
    Pow2Eleven();
    BitLenUnique(c, 11);
    BitLenShifted(c, i);
    MulMono(1, Pow2(i), c);
  }

  lemma SignOf(h: Half)
    ensures h / 0x8000 == if h >= 0x8000 then 1 else 0
  {}

  /** The kernel stores what the host expects exactly when truncation rounds to nearest. */
  lemma StoresExpected(s: Finite, t: Float, flush: bool)
    requires InRange(t) && Mag(t) == s.mag * 0x2000 && s.mag >= 1024 && (s.neg <==> Sign(t) == 1)
    ensures CvtF16F32(s, flush) == F2h(t) <==> DropsLittle(t)
  {
    var f := RoundTo(11, s);
    var m := F2hInRange(t);
    TruncationRounds(t);
    RoundScaled13(s.mag);
    RoundAtLeast(s.mag);
    RoundRepresentable(11, s.mag);
    EncodesTo(f, F2h(t));
    assert Value(F2h(t)).neg == f.neg;
  }

  /** Widening tells halves that are not zeros apart. */
  lemma WidenedApart(x: Half, y: Half)
    requires y % 0x8000 != 0
    ensures H2f(x) == H2f(y) <==> x == y
  {
    NotZeroHalf(y);
    if x == 0x8000 {
      H2fZero(x);
      WidenedNonzero(y);
    } else {
      WidenedOnce(x, y);
    }
  }

  lemma NotZeroHalf(h: Half)
    requires h % 0x8000 != 0
    ensures h != 0 && h != 0x8000
  {}

  lemma WidenedOnce(x: Half, y: Half)
    requires x != 0x8000 && y != 0x8000
    ensures H2f(x) == H2f(y) <==> x == y
  {
    HalfRoundTrip(x);
    HalfRoundTrip(y);
  }

  lemma WidenedNonzero(h: Half)
    requires h % 0x8000 != 0
    ensures H2f(h) != 0
  {
    H2fFields(h);
    NonzeroPattern(h / 0x8000, Exponent(h), Fraction(h) * 0x2000);
  }

  lemma NonzeroPattern(s: nat, e: nat, m: nat)
    ensures Pattern(s, e + 112, m) != 0
  {}

  /** The host sums whose half the host expects as the kernel stores it. In the normal half range the 13 bits that
      f2h drops are below one half, or are one half and the last kept bit is even. From 65536 on both take the sum
      for an infinity if no higher fraction bit is set. Below the normal range f2h is wrong but for zeros, and for
      half the smallest normal number when the kernel flushes it. */
  predicate Expected(t: Float, flush: bool) {
    if InRange(t) then DropsLittle(t)
    else if Exp(t) > 142 then Man(t) < 0x2000
    else ZeroFloat(t) || (flush && Exp(t) == 112 && Man(t) < 0x2000)
  }

  /** For all supported operands and both float modes, the host accepts what the kernel stores exactly when its own
      sum is one of these. */
  lemma HostCheckExact(a: Half, b: Half, flush: bool)
    requires Supported(a) && Supported(b)
    ensures IsFinite(a) && IsFinite(b) && (Accepts(a, b, flush) <==> Expected(HostSum(a, b), flush))
  {
    if InRange(HostSum(a, b)) {
      AcceptsInRange(a, b, flush, 112);
    } else if Exp(HostSum(a, b)) > 142 {
      AcceptsLarge(a, b, flush, 112);
    } else if ZeroFloat(HostSum(a, b)) {
      AcceptsZero(a, b, flush, 112);
    } else {
      AcceptsSmall(a, b, flush, 112);
    }
  }

  lemma AcceptsInRange(a: Half, b: Half, flush: bool, k: nat)
    requires Supported(a) && Supported(b) && InRange(HostSum(a, b)) && k + 1 == 113
    ensures IsFinite(a) && IsFinite(b) && (Accepts(a, b, flush) <==> DropsLittle(HostSum(a, b)))
  {
    var t := HostSum(a, b);
    SameSum(a, b, flush, k);
    StoresExpected(AddF32(CvtF32F16(a, flush), CvtF32F16(b, flush)), t, flush);
    var m := F2hInRange(t);
    InRangeExponent(Exp(t));
    LowBits(F2h(t));
    WidenedApart(Stored(a, b, flush), F2h(t));
  }

  // ---- sums that are too large ----

  /** A rounded value does not pass a representable one. */
  lemma RoundUpTo(p: nat, n: nat, m: nat)
    requires p > 0 && Representable(p, m) && n <= m
    ensures Round(p, n) <= m
  {
    RoundNearest(p, n, m);
  }

  lemma RoundFrom(p: nat, n: nat, s: nat)
    requires p > 0 && n >= Pow2(s)
    ensures Round(p, n) >= Pow2(s)
  {
    PowerRepresentable(p, s);
    RoundNearest(p, n, Pow2(s));
  }

  lemma LargestHalf(h: Half, flush: bool, top: nat)
    requires IsFinite(h) && top == Pow2(29)
    ensures CvtF32F16(h, flush).mag <= 2047 * top
  {
    var c, k := HalfFits(h, flush);
    Pow2Eleven();
    Pow2Mono(k, 29);
    BelowLargest(c, Pow2(k), top);
  }

  lemma BelowLargest(c: nat, p: nat, top: nat)
    requires c < 2048 && p <= top
    ensures c * p <= 2047 * top
  {
    MulMono(c, 2047, p);
    MulMono(p, top, 2047);
  }

  lemma LargestSum(a: Half, b: Half, flush: bool, top: nat)
    requires IsFinite(a) && IsFinite(b) && top == Pow2(29)
    ensures AddF32(CvtF32F16(a, flush), CvtF32F16(b, flush)).mag <= 2047 * (2 * top)
  {
    LargestHalf(a, flush, top);
    LargestHalf(b, flush, top);
    SumBelowEqual(CvtF32F16(a, flush), CvtF32F16(b, flush), 2047 * top);
    TwentyFour();
    Pow2Eleven();
    assert Pow2(30) == 2 * top;
    FitsRepresentable(24, 2047 * (2 * top), 2047, 30);
    RoundUpTo(24, Sum(CvtF32F16(a, flush), CvtF32F16(b, flush)).mag, 2047 * (2 * top));
  }

  lemma SumBelowEqual(x: Finite, y: Finite, top: nat)
    requires x.mag <= top && y.mag <= top
    ensures Sum(x, y).mag <= 2 * top
  {}

  /** Such a sum lies between 65536 and twice the largest half. */
  lemma LargeExponent(t: Float, n: nat, top: nat)
    requires Exp(t) > 142 && Mag(t) == n * 0x2000 && n <= 2047 * (2 * top) && top == Pow2(29)
    ensures Exp(t) == 143 && n >= Pow2(40)
  {
    Powers();
    Pow2Add(23, Exp(t) - 113);
    Pow2Mono(30, Exp(t) - 113);
    assert Pow2(30) == 2 * top;
    LargeBounds(0x80_0000 + Man(t), Pow2(Exp(t) - 113), n, 2 * top, Mag(t));
    Pow2Add(10, 30);
    Pow2Eleven();
    if Exp(t) > 143 { Pow2Mono(31, Exp(t) - 113); }
  }

  lemma LargeBounds(c: nat, p: nat, n: nat, r: nat, g: nat)
    requires c >= 0x80_0000 && p >= r && g == c * p && g == n * 0x2000 && n <= 2047 * r && r > 0
    ensures n >= 1024 * r && p < 2 * r
  {
    MulMono(0x80_0000, c, p);
  }

  /** f2h on a float that is no zero or denormal, with the wrapped exponent e. */
  lemma WrappedFields(t: Float, e: nat)
    requires Exp(t) > 0 && e == (Exp(t) - 112) % 32
    ensures Sign(t) < 2 && Man(t) / 0x2000 < 0x400 && e < 32
    ensures F2h(t) == HalfPattern(Sign(t), e, Man(t) / 0x2000)
    ensures F2h(t) % 0x8000 == e * 0x400 + Man(t) / 0x2000
    ensures Exponent(F2h(t)) == e && Fraction(F2h(t)) == Man(t) / 0x2000
  {
    FieldBounds(t);
    NotZeroPattern(t);
    F2hFields(t);
    HalfPatternFields(Sign(t), e, Man(t) / 0x2000);
  }

  lemma NotZeroPattern(t: Float)
    requires Exp(t) > 0
    ensures t != 0 && t != 0x8000_0000
  {}

  lemma Infinite(s: Finite, flush: bool)
    requires s.mag >= Pow2(40)
    ensures CvtF16F32(s, flush) == HalfPattern(if s.neg then 1 else 0, 31, 0)
  {
    Pow2Eleven();
    Pow2Mono(10, 40);
    RoundFrom(11, s.mag, 40);
    TooLarge(RoundTo(11, s));
  }

  lemma AcceptsLarge(a: Half, b: Half, flush: bool, k: nat)
    requires Supported(a) && Supported(b) && Exp(HostSum(a, b)) > 142 && k + 1 == 113
    ensures IsFinite(a) && IsFinite(b) && (Accepts(a, b, flush) <==> Man(HostSum(a, b)) < 0x2000)
  {
    SameSum(a, b, flush, k);
    LargestSum(a, b, flush, Pow2(29));
    LargeDecides(AddF32(CvtF32F16(a, flush), CvtF32F16(b, flush)), HostSum(a, b), flush, Pow2(29));
    WidenedApart(Stored(a, b, flush), F2h(HostSum(a, b)));
  }

  lemma LargeDecides(s: Finite, t: Float, flush: bool, top: nat)
    requires Exp(t) > 142 && Mag(t) == s.mag * 0x2000 && s.mag <= 2047 * (2 * top) && top == Pow2(29)
    requires s.neg <==> Sign(t) == 1
    ensures F2h(t) % 0x8000 != 0 && (CvtF16F32(s, flush) == F2h(t) <==> Man(t) < 0x2000)
  {
    LargeExponent(t, s.mag, top);
    WrappedFields(t, 31);
    Infinite(s, flush);
    InfinityOnly(Sign(t), Man(t) / 0x2000);
    LowFraction(Man(t));
  }

  lemma InfinityOnly(s: nat, m: nat)
    ensures HalfPattern(s, 31, 0) == HalfPattern(s, 31, m) <==> m == 0
  {}

  lemma LowFraction(man: nat)
    ensures man / 0x2000 == 0 <==> man < 0x2000
  {}

  // ---- sums below the normal half range ----

  /** Such a sum is a whole number below 1024 of units of 2^-24; k is 112. */
  lemma SmallExponent(t: Float, n: nat, k: nat)
    requires Exp(t) < 113 && FloatValue(t).mag == n * Pow2(k + 13) && n > 0 && k + 1 == 113
    ensures n < 1024 && Exp(t) == BitLen(n) + 102 && 0x80_0000 + Man(t) == n * Pow2(24 - BitLen(n)) && BitLen(n) <= 10
  {
    FieldBounds(t);
    NotDenormal(t, n, k);
    SmallLengths(0x80_0000 + Man(t), Exp(t) - 1, n, k + 13);
    SmallLength(n);
    SameSignificand(0x80_0000 + Man(t), Exp(t) - 1, n, 24 - BitLen(n), k + 13);
  }

  lemma NotDenormal(t: Float, n: nat, k: nat)
    requires FloatValue(t).mag == n * Pow2(k + 13) && n > 0 && k + 1 == 113
    ensures Exp(t) > 0
  {
    MulMono(1, n, Pow2(k + 13));
    Powers();
    Pow2Mono(23, k + 13);
    FieldBounds(t);
  }

  lemma SmallLengths(c: nat, i: nat, n: nat, j: nat)
    requires 0x80_0000 <= c < 0x100_0000 && c * Pow2(i) == n * Pow2(j) && n > 0
    ensures 24 + i == BitLen(n) + j
  {
    TwentyFour();
    BitLenUnique(c, 24);
    BitLenShifted(c, i);
    BitLenShifted(n, j);
  }

  lemma SameSignificand(c: nat, i: nat, n: nat, d: nat, j: nat)
    requires c * Pow2(i) == n * Pow2(j) && d + i == j
    ensures c == n * Pow2(d)
  {
    Pow2Add(d, i);
    MulAssoc(n, Pow2(d), Pow2(i));
    Cancel(c, n * Pow2(d), Pow2(i));
  }

  lemma SmallLength(n: nat)
    requires n > 0 && BitLen(n) <= 10
    ensures n < 1024
  {
    Pow2Eleven();
    BitLenBounds(n);
    Pow2Mono(BitLen(n), 10);
  }

  lemma SmallStored(s: Finite, flush: bool)
    requires 0 < s.mag < 1024
    ensures CvtF16F32(s, flush) % 0x8000 == if flush then 0 else s.mag
  {
    Pow2Eleven();
    LowFifteen(s.neg, if flush then 0 else s.mag);
  }

  lemma LowFifteen(neg: bool, n: nat)
    requires n < 1024
    ensures ((if neg then 0x8000 else 0) + n) % 0x8000 == n
  {}

  /** f2h makes a zero of such a sum only when it is one half of the smallest normal half. */
  lemma SmallZero(t: Float)
    requires 103 <= Exp(t) <= 112
    ensures F2h(t) % 0x8000 == 0 <==> Exp(t) == 112 && Man(t) < 0x2000
  {
    WrappedFields(t, if Exp(t) == 112 then 0 else Exp(t) - 80);
    LowFraction(Man(t));
  }

  /** It never keeps the number itself. */
  lemma SmallDiffers(t: Float, n: nat, h: Half)
    requires 103 <= Exp(t) <= 112 && 0 < n < 1024 && Exp(t) == BitLen(n) + 102
    requires 0x80_0000 + Man(t) == n * Pow2(24 - BitLen(n)) && h % 0x8000 == n
    ensures F2h(t) != h
  {
    WrappedFields(t, if Exp(t) == 112 then 0 else Exp(t) - 80);
    DenormalFields(h, n);
    if Exp(t) == 112 {
      assert Pow2(14) == 0x4000 by { Powers(); }
      TwiceTooLarge(Man(t), n);
    }
  }

  lemma DenormalFields(h: Half, n: nat)
    requires n < 1024 && h % 0x8000 == n
    ensures Exponent(h) == 0 && Fraction(h) == n
  {}

  lemma TwiceTooLarge(man: nat, n: nat)
    requires n < 1024 && 0x80_0000 + man == n * 0x4000
    ensures man / 0x2000 != n
  {}

  lemma AcceptsSmall(a: Half, b: Half, flush: bool, k: nat)
    requires Supported(a) && Supported(b) && k + 1 == 113
    requires Exp(HostSum(a, b)) < 113 && !ZeroFloat(HostSum(a, b))
    ensures IsFinite(a) && IsFinite(b)
    ensures Accepts(a, b, flush) <==> flush && Exp(HostSum(a, b)) == 112 && Man(HostSum(a, b)) < 0x2000
  {
    HostSumIs(a, b, flush, k);
    SmallDecides(AddF32(CvtF32F16(a, flush), CvtF32F16(b, flush)), HostSum(a, b), flush, k);
  }

  lemma SmallDecides(s: Finite, t: Float, flush: bool, k: nat)
    requires Exp(t) < 113 && !ZeroFloat(t) && ScaledBy(s, FloatValue(t), Pow2(k + 13)) && k + 1 == 113
    ensures H2f(CvtF16F32(s, flush)) == H2f(F2h(t)) <==> flush && Exp(t) == 112 && Man(t) < 0x2000
  {
    NonzeroValue(t);
    SmallExponent(t, s.mag, k);
    SmallStored(s, flush);
    SmallCompared(t, s.mag, CvtF16F32(s, flush), flush);
  }

  lemma SmallCompared(t: Float, n: nat, h: Half, flush: bool)
    requires 103 <= Exp(t) <= 112 && 0 < n < 1024 && Exp(t) == BitLen(n) + 102
    requires 0x80_0000 + Man(t) == n * Pow2(24 - BitLen(n)) && h % 0x8000 == if flush then 0 else n
    ensures H2f(h) == H2f(F2h(t)) <==> flush && Exp(t) == 112 && Man(t) < 0x2000
  {
    if flush {
      ZeroWidens(h, F2h(t));
      SmallZero(t);
    } else {
      SmallDiffers(t, n, h);
      WidenedApart(F2h(t), h);
    }
  }

  lemma ZeroWidens(x: Half, y: Half)
    requires x % 0x8000 == 0
    ensures H2f(x) == H2f(y) <==> y % 0x8000 == 0
  {
    H2fZero(x);
    if y % 0x8000 == 0 { H2fZero(y); } else { WidenedNonzero(y); }
  }

  lemma NonzeroValue(t: Float)
    requires !ZeroFloat(t)
    ensures FloatValue(t).mag > 0
  {
    FieldBounds(t);
    if Exp(t) > 0 { MulMono(1, Pow2(Exp(t) - 1), 0x80_0000 + Man(t)); }
  }

  // ---- zero sums ----

  lemma AcceptsZero(a: Half, b: Half, flush: bool, k: nat)
    requires Supported(a) && Supported(b) && ZeroFloat(HostSum(a, b)) && k + 1 == 113
    ensures IsFinite(a) && IsFinite(b) && Accepts(a, b, flush) && DropsLittle(HostSum(a, b))
  {
    var t := HostSum(a, b);
    HostSumIs(a, b, flush, k);
    var s := AddF32(CvtF32F16(a, flush), CvtF32F16(b, flush));
    ZeroFields(t);
    ZeroSum(s, t, k);
    ZeroStored(s, flush);
    H2fZero(Stored(a, b, flush));
    H2fZero(0);
  }

  lemma ZeroSum(s: Finite, t: Float, k: nat)
    requires ScaledBy(s, FloatValue(t), Pow2(k + 13)) && FloatValue(t).mag == 0
    ensures s.mag == 0
  {
    if s.mag > 0 { MulMono(1, s.mag, Pow2(k + 13)); }
  }

  lemma ZeroFields(t: Float)
    requires ZeroFloat(t)
    ensures FloatValue(t).mag == 0 && DropsLittle(t) && F2h(t) == 0
  {}

  lemma ZeroStored(s: Finite, flush: bool)
    requires s.mag == 0
    ensures CvtF16F32(s, flush) % 0x8000 == 0
  {
    FitsRepresentable(11, 0, 0, 0);
    RoundExact(11, 0);
  }

  // ---- a sum that the host rejects ----

  /** Normalized products of a significand and a power of two have one form. */
  lemma OneForm(c: nat, i: nat, d: nat, j: nat)
    requires 0x80_0000 <= c < 0x100_0000 && 0x80_0000 <= d < 0x100_0000 && c * Pow2(i) == d * Pow2(j)
    ensures c == d && i == j
  {
    TwentyFour();
    BitLenUnique(c, 24);
    BitLenUnique(d, 24);
    BitLenShifted(c, i);
    BitLenShifted(d, j);
    Cancel(c, d, Pow2(i));
  }

  /** A positive normal value has one encoding. */
  lemma FloatOf(t: Float, c: nat, i: nat)
    requires 0x80_0000 <= c < 0x100_0000 && FloatValue(t) == Finite(false, c * Pow2(i))
    ensures t == Pattern(0, i + 1, c - 0x80_0000)
  {
    FieldBounds(t);
    MulMono(1, Pow2(i), c);
    if Exp(t) != 0 { OneForm(0x80_0000 + Man(t), Exp(t) - 1, c, i); }
  }

  lemma SmallPowers()
    ensures Pow2(2) == 4 && Pow2(11) == 2048 && Pow2(12) == 4096 && Pow2(13) == 8192
  {
    Pow2Eleven();
  }

  /** 2048 + 1.5 in units of 2^-24. */
  lemma ExampleSum(x: Finite, y: Finite, k: nat)
    requires x == Finite(false, 1024 * Pow2(k + 2)) && k >= 9 && y == Finite(false, 1536 * Pow2(k - 9))
    ensures AddF32(x, y) == Finite(false, 4099 * Pow2(k))
  {
    SmallPowers();
    Pow2Add(k, 2);
    assert Pow2(9) == 512;
    Pow2Add(k - 9, 9);
    ExampleTerms(Pow2(k - 9), Pow2(k), Pow2(k + 2));
    TwentyFour();
    FitsRepresentable(24, 4099 * Pow2(k), 4099, k);
    RoundExact(24, 4099 * Pow2(k));
  }

  lemma ExampleTerms(p: nat, q: nat, r: nat)
    requires q == p * 512 && r == q * 4
    ensures 1024 * r + 1536 * p == 4099 * q
  {}

  /** The kernel rounds 2049.5 to 2050. */
  lemma ExampleStored(s: Finite, flush: bool, k: nat)
    requires s == Finite(false, 4099 * Pow2(k)) && k + 1 == 24
    ensures CvtF16F32(s, flush) == 0x6801
  {
    SmallPowers();
    BitLenUnique(4099, 13);
    assert Round(11, 4099) == 4100;
    RoundScaled(11, 4099, k);
    Pow2Add(k, 2);
    MulAssoc(1025, Pow2(2), Pow2(k));
    BitLenUnique(1025, 11);
    BitLenShifted(1025, k + 2);
    MulMono(1, Pow2(k + 2), 1025);
    Pow2Eleven();
    EncodeNormal(Finite(false, 1025 * Pow2(k + 2)), 1025, 26);
  }

  /** The host's sum is 2049.5. */
  lemma ExampleHostSum(t: Float, s: Finite, k: nat, j: nat)
    requires s == Finite(false, 4099 * Pow2(k)) && ScaledBy(s, FloatValue(t), Pow2(j + 13)) && k + 1 == 24 && j + 1 == 113
    ensures t == Pattern(0, 138, 0x1800)
  {
    SmallPowers();
    Pow2Add(k, j + 13);
    MulAssoc(4099, Pow2(k), Pow2(j + 13));
    Pow2Add(11, 137);
    MulAssoc(4099, Pow2(11), Pow2(k + (j + 13) - 11));
    Pow2Add(11, k + (j + 13) - 11);
    MulMono(1, Pow2(k), 4099);
    FloatOf(t, 0x80_1800, k + (j + 13) - 11);
  }

  /** 2048 + 1.5 is 2049.5: the kernel stores 2050 and the host expects 2048. */
  lemma HostRejects(a: Half, b: Half, flush: bool)
    requires a == 0x6800 && b == 0x3e00
    ensures Supported(a) && Supported(b) && IsFinite(a) && IsFinite(b)
    ensures Stored(a, b, flush) == 0x6801 && F2h(HostSum(a, b)) == 0x6800 && !Accepts(a, b, flush)
  {
    ExampleOperands(a, b, flush, 23);
    HostSumIs(a, b, flush, 112);
    ExampleStored(AddF32(Value(a), Value(b)), flush, 23);
    ExampleHostSum(HostSum(a, b), AddF32(Value(a), Value(b)), 23, 112);
    ExampleTruncated(HostSum(a, b));
    HostCheckExact(a, b, flush);
  }

  lemma ExampleOperands(a: Half, b: Half, flush: bool, k: nat)
    requires a == 0x6800 && b == 0x3e00 && k + 1 == 24
    ensures Supported(a) && Supported(b) && IsFinite(a) && IsFinite(b)
    ensures CvtF32F16(a, flush) == Value(a) && CvtF32F16(b, flush) == Value(b)
    ensures AddF32(Value(a), Value(b)) == Finite(false, 4099 * Pow2(k))
  {
    FieldsOf(a, false, 26, 0);
    FieldsOf(b, false, 15, 512);
    NormalKept(a, flush);
    NormalKept(b, flush);
    ValueOf(a, k + 2);
    ValueOf(b, k - 9);
    ExampleSum(Value(a), Value(b), k);
  }

  lemma ValueOf(h: Half, i: nat)
    requires h < 0x8000 && Exponent(h) == i + 1 <= 30
    ensures Value(h) == Finite(false, (1024 + Fraction(h)) * Pow2(i))
  {}

  lemma ExampleTruncated(t: Float)
    requires t == Pattern(0, 138, 0x1800)
    ensures InRange(t) && !DropsLittle(t) && F2h(t) == 0x6800
  {
    PatternFields(0, 138, 0x1800);
    var m := F2hInRange(t);
  }
}
