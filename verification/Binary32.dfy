/** binary32 words (section 3.4 of IEEE 754-2008): their fields, the finite values they hold, and addition of those
    with rounding to nearest even (sections 4.3.1 and 5.4.1). */
module Binary32 {
  import opened Bits
  import opened Rounding

  type Float = Word

  lemma Powers()
    ensures Pow2(1) == 2 && Pow2(5) == 32 && Pow2(8) == 0x100 && Pow2(10) == 0x400 && Pow2(13) == 0x2000
    ensures Pow2(15) == 0x8000 && Pow2(16) == 0x1_0000 && Pow2(23) == 0x80_0000 && Pow2(32) == 0x1_0000_0000
    ensures Pow2(31) == 0x8000_0000
  {
    Pow2Add(8, 5);
    Pow2Add(8, 7);
    Pow2Add(8, 8);
    Pow2Add(16, 7);
    Pow2Add(16, 15);
    Pow2Add(16, 16);
  }

  // ---- fields ----

  function Sign(t: Float): nat { t / 0x8000_0000 }
  function Exp(t: Float): nat { t / 0x80_0000 % 0x100 }
  function Man(t: Float): nat { t % 0x80_0000 }

  function Pattern(s: nat, e: nat, m: nat): nat { s * 0x8000_0000 + e * 0x80_0000 + m }

  lemma PatternFields(s: nat, e: nat, m: nat)
    requires s < 2 && e < 0x100 && m < 0x80_0000
    ensures Pattern(s, e, m) < 0x1_0000_0000
    ensures Sign(Pattern(s, e, m)) == s && Exp(Pattern(s, e, m)) == e && Man(Pattern(s, e, m)) == m
  {}

  lemma FieldBounds(t: Float)
    ensures Sign(t) < 2 && Exp(t) < 0x100 && Man(t) < 0x80_0000
    ensures t == Pattern(Sign(t), Exp(t), Man(t))
  {}

  // ---- values ----

  predicate FiniteFloat(t: Float) { Exp(t) != 255 }

  /** Zero or a normal number: what every float mode computes with. */
  predicate Ordinary(t: Float) { 1 <= Exp(t) <= 254 || t == 0 || t == 0x8000_0000 }

  /** A finite float in units of 2^-149, the smallest one. */
  function FloatValue(t: Float): Finite {
    Finite(Sign(t) == 1, if Exp(t) == 0 then Man(t) else (0x80_0000 + Man(t)) * Pow2(Exp(t) - 1))
  }

  /** Significant bits of the first value that is too large. */
  const TOO_LONG := 278

  /** The bits of a value that has at most 24 significant bits; too large ones become infinities. */
  function FloatBits(f: Finite): Float {
    var s := if f.neg then 1 else 0;
    if f.mag < 0x80_0000 then Pattern(s, 0, f.mag)
    else if BitLen(f.mag) >= TOO_LONG then Pattern(s, 255, 0)
    else
      Powers();
      LongerThanP(23, f.mag);
      var e := BitLen(f.mag) - 23;
      PatternFields(s, e, f.mag / Pow2(e - 1) % 0x80_0000);
      Pattern(s, e, f.mag / Pow2(e - 1) % 0x80_0000)
  }

  /** v_add_f32 on finite operands, bit for bit. */
  function AddFloat(a: Float, b: Float): Float { FloatBits(RoundTo(24, Sum(FloatValue(a), FloatValue(b)))) }

  /** Encoding a 24-bit value that is not too large and reading it back gives the value. */
  lemma FloatBitsValue(f: Finite)
    requires Representable(24, f.mag) && BitLen(f.mag) < TOO_LONG
    ensures FiniteFloat(FloatBits(f)) && FloatValue(FloatBits(f)) == f
    ensures f.mag >= 0x80_0000 ==> 1 <= Exp(FloatBits(f)) == BitLen(f.mag) - 23
  {
    if f.mag < 0x80_0000 {
      PatternFields(if f.neg then 1 else 0, 0, f.mag);
    } else {
      TwentyFour();
      LongerThanP(23, f.mag);
      var c := Significand(24, f.mag);
      NormalBits(f, c, BitLen(f.mag) - 23);
    }
  }

  lemma NormalBits(f: Finite, c: nat, e: nat)
    requires 0x80_0000 <= c < 0x100_0000 && 0 < e < 255 && BitLen(f.mag) == e + 23 && f.mag == c * Pow2(e - 1)
    requires f.mag >= 0x80_0000
    ensures FiniteFloat(FloatBits(f)) && FloatValue(FloatBits(f)) == f && Exp(FloatBits(f)) == e
    ensures FloatBits(f) == Pattern(if f.neg then 1 else 0, e, c - 0x80_0000)
  {
    LowBitsOf(c, Pow2(e - 1));
    PatternFields(if f.neg then 1 else 0, e, c - 0x80_0000);
  }

  lemma LowBitsOf(c: nat, d: nat)
    requires 0x80_0000 <= c < 0x100_0000 && d > 0
    ensures c * d / d % 0x80_0000 == c - 0x80_0000
  {
    DivideOut(c, d);
  }

  lemma TwentyFour()
    ensures Pow2(23) == 0x80_0000 && Pow2(24) == 0x100_0000
  {
    Powers();
    assert Pow2(24) == 2 * Pow2(23);
  }

  // ---- what the addition means ----

  lemma FloatRepresentable(t: Float)
    ensures Representable(24, FloatValue(t).mag)
  {
    TwentyFour();
    if Exp(t) == 0 {
      FitsRepresentable(24, Man(t), Man(t), 0);
    } else {
      FitsRepresentable(24, FloatValue(t).mag, 0x80_0000 + Man(t), Exp(t) - 1);
    }
  }

  /** The sum of finite floats is the float nearest to the exact sum of the signed values, as long as that is nearer
      to the largest float than to 2^128, here 2^top in units of 2^-149; of two nearest floats it is the one with an
      even last bit, and a zero sum is negative when both operands are. */
  lemma AddFloatNearest(a: Float, b: Float, t: Float, top: nat)
    requires FiniteFloat(a) && FiniteFloat(b) && FiniteFloat(t) && top == 149 + 128
    requires Abs(Signed(FloatValue(a)) + Signed(FloatValue(b))) + Pow2(top - 25) < Pow2(top)
    ensures NearestSum(Signed(FloatValue(a)) + Signed(FloatValue(b)), AddFloat(a, b), t)
    ensures Signed(FloatValue(a)) + Signed(FloatValue(b)) == 0 ==>
              FloatValue(AddFloat(a, b)) == Finite(FloatValue(a).neg && FloatValue(b).neg, 0)
  {
    var f, x := RoundTo(24, Sum(FloatValue(a), FloatValue(b))), Signed(FloatValue(a)) + Signed(FloatValue(b));
    ExactFloatSum(FloatValue(a), FloatValue(b), top);
    RoundedFloat(f, Abs(x), top);
    NearestFloat(f, x, AddFloat(a, b), t);
  }

  /** r is at least as near to x as t, has the sign of x, and an even last bit if the other one is as near. */
  predicate NearestSum(x: int, r: Float, t: Float) {
    var v, other := Signed(FloatValue(r)), Signed(FloatValue(t));
    && FiniteFloat(r) && Abs(v - x) <= Abs(other - x)
    && (Abs(v - x) == Abs(other - x) && v != other ==> r % 2 == 0)
    && (x != 0 ==> (FloatValue(r).neg <==> x < 0))
  }

  /** The rounded sum, from the signed values. */
  lemma ExactFloatSum(v: Finite, w: Finite, top: nat)
    requires top > 25
    ensures var x, f := Signed(v) + Signed(w), RoundTo(24, Sum(v, w));
            && f.mag == Round(24, Abs(x)) && (if x == 0 then f.neg <==> v.neg && w.neg else f.neg <==> x < 0)
            && (f.mag < Pow2(top) <==> Abs(x) + Pow2(top - 25) < Pow2(top))
  {
    SumExact(v, w);
    RoundsBelow(24, top, Sum(v, w).mag);
  }

  lemma NearestFloat(f: Finite, x: int, r: Float, t: Float)
    requires FiniteFloat(r) && FloatValue(r) == f && f.mag == Round(24, Abs(x)) && (x != 0 ==> (f.neg <==> x < 0))
    requires EvenInTies(f.mag, Abs(x), r)
    ensures NearestSum(x, r, t) && (x == 0 ==> f.mag == 0)
  {
    FloatRepresentable(t);
    NearestMagnitudes(f, x, Abs(x), FloatValue(t));
  }

  ghost predicate EvenInTies(mag: nat, n: nat, r: Float) {
    forall m :: Representable(24, m) && m != mag && Dist(m, n) == Dist(mag, n) ==> r % 2 == 0
  }

  lemma RoundedFloat(f: Finite, n: nat, top: nat)
    requires top + 1 == TOO_LONG && f.mag == Round(24, n) && f.mag < Pow2(top)
    ensures FiniteFloat(FloatBits(f)) && FloatValue(FloatBits(f)) == f
    ensures EvenInTies(f.mag, n, FloatBits(f))
  {
    RoundRepresentable(24, n);
    ShortEnough(f.mag, top);
    FloatBitsValue(f);
    forall m | Representable(24, m) && m != f.mag && Dist(m, n) == Dist(f.mag, n)
      ensures FloatBits(f) % 2 == 0
    {
      FloatTie(f, n, m);
    }
  }

  lemma ShortEnough(n: nat, top: nat)
    requires n < Pow2(top)
    ensures BitLen(n) <= top
  {
    if n > 0 {
      BitLenBounds(n);
      Pow2Less(BitLen(n) - 1, top);
    }
  }

  lemma NearestMagnitudes(f: Finite, x: int, n: nat, v: Finite)
    requires n == Abs(x) && f.mag == Round(24, n) && (x != 0 ==> (f.neg <==> x < 0)) && Representable(24, v.mag)
    ensures Abs(Signed(f) - x) <= Abs(Signed(v) - x) && (x == 0 ==> f.mag == 0)
    ensures Abs(Signed(f) - x) == Abs(Signed(v) - x) && Signed(f) != Signed(v) ==>
              Dist(f.mag, n) == Dist(v.mag, n) && f.mag != v.mag
  {
    RoundNearest(24, n, v.mag);
    FitsRepresentable(24, 0, 0, 0);
    RoundNearest(24, n, 0);
    SignedNearest(x, f, v);
  }

  lemma FloatTie(f: Finite, n: nat, m: nat)
    requires f.mag == Round(24, n) && Representable(24, m) && m != Round(24, n) && Dist(m, n) == Dist(Round(24, n), n)
    ensures FloatBits(f) % 2 == 0
  {
    var c := TiesToEven(24, n, m);
    var l := BitLen(n);
    BitLenBounds(n);
    TwentyFour();
    Pow2Mono(24, l - 1);
    RoundBetween(24, n, l);
    if f.mag == Pow2(l) { c := PowerTie(f, l); } else { BitLenUnique(f.mag, l); }
    EvenFloat(f, c, BitLen(f.mag), Pow2(BitLen(f.mag) - 24));
  }

  lemma PowerTie(f: Finite, l: nat) returns (c: nat)
    requires f.mag == Pow2(l) && l >= 24
    ensures BitLen(f.mag) == l + 1 && c % 2 == 0 && f.mag == c * Pow2(l + 1 - 24)
  {
    BitLenUnique(f.mag, l + 1);
    c := Pow2(23);
    TwentyFour();
    Pow2Add(23, l - 23);
  }

  lemma EvenFloat(f: Finite, c: nat, l: nat, u: nat)
    requires f.mag >= 0x80_0000 && l == BitLen(f.mag) >= 24 && u == Pow2(l - 24) && f.mag == c * u && c % 2 == 0
    ensures FloatBits(f) % 2 == 0
  {
    DivideOut(c, u);
    FloatFields(f, l, c);
    EvenPattern(if f.neg then 1 else 0, if l >= TOO_LONG then 255 else l - 23, c);
  }

  lemma FloatFields(f: Finite, l: nat, c: nat)
    requires f.mag >= 0x80_0000 && l == BitLen(f.mag) >= 24 && c == f.mag / Pow2(l - 24)
    ensures var s := if f.neg then 1 else 0;
            FloatBits(f) == if l >= TOO_LONG then Pattern(s, 255, 0) else Pattern(s, l - 23, c % 0x80_0000)
  {}

  lemma EvenPattern(s: nat, e: nat, c: nat)
    requires c % 2 == 0
    ensures Pattern(s, e, c % 0x80_0000) % 2 == 0 && Pattern(s, e, 0) % 2 == 0
  {
    Halve(c, 0x40_0000, 0x80_0000);
    EvenFraction(s, e, c / 2 % 0x40_0000, c % 0x80_0000);
    EvenFraction(s, e, 0, 0);
  }

  lemma EvenFraction(s: nat, e: nat, h: nat, m: nat)
    requires m == 2 * h
    ensures Pattern(s, e, m) % 2 == 0
  {
    assert Pattern(s, e, m) == 2 * (s * 0x4000_0000 + e * 0x40_0000 + h);
  }

  /** From there on it is the infinity of its sign. */
  lemma AddFloatOverflows(a: Float, b: Float, top: nat)
    requires FiniteFloat(a) && FiniteFloat(b) && top == 149 + 128
    requires Abs(Signed(FloatValue(a)) + Signed(FloatValue(b))) + Pow2(top - 25) >= Pow2(top)
    ensures AddFloat(a, b) == if Signed(FloatValue(a)) + Signed(FloatValue(b)) < 0 then 0xff80_0000 else 0x7f80_0000
  {
    ExactFloatSum(FloatValue(a), FloatValue(b), top);
    Pow2Mono(top - 25, top - 1);
    InfiniteBits(RoundTo(24, Sum(FloatValue(a), FloatValue(b))), top);
  }

  lemma InfiniteBits(f: Finite, top: nat)
    requires top + 1 == TOO_LONG && f.mag >= Pow2(top)
    ensures FloatBits(f) == if f.neg then 0xff80_0000 else 0x7f80_0000
  {
    LongerThanP(top, f.mag);
    TwentyFour();
    Pow2Mono(23, top);
  }
}
