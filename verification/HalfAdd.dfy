/** The two fp16 kernels: a native f16 add, and widening to f32, adding there and converting back.
    Finite values are held in units of 2^-24, the smallest half; every half and every sum of halves is
    a whole number of them. Formats and rounding follow sections 3.4, 3.6, 4.3.1 and 5.4.1 of IEEE 754-2008. */
module HalfAdd {
  import opened Bits
  import opened Rounding

  type Half = n: nat | n < 0x1_0000

  function Exponent(h: Half): nat { h / 1024 % 32 }
  function Fraction(h: Half): nat { h % 1024 }
  predicate IsFinite(h: Half) { Exponent(h) != 31 }

  /** The value of a finite half. */
  function Value(h: Half): Finite
    requires IsFinite(h)
  {
    Finite(h >= 0x8000,
           if Exponent(h) == 0 then Fraction(h) else (1024 + Fraction(h)) * Pow2(Exponent(h) - 1))
  }

  /** Denormal halves are flushed to zero of the same sign when the float mode says so. */
  function Flush(f: Finite, flush: bool): Finite {
    if flush && f.mag < 1024 then Finite(f.neg, 0) else f
  }

  /** Bits of a value that has at most 11 significant bits; too large values become infinities. */
  function Encode(f: Finite): Half {
    var sign := if f.neg then 0x8000 else 0;
    if f.mag < 1024 then sign + f.mag
    else
      Pow2Eleven();
      LongerThanP(10, f.mag);
      var e := BitLen(f.mag) - 10;
      if e >= 31 then sign + 0x7c00 else sign + e * 1024 + f.mag / Pow2(e - 1) % 1024
  }

  lemma Pow2Eleven()
    ensures Pow2(10) == 1024 && Pow2(11) == 2048
  {
    assert Pow2(5) == 32;
    assert Pow2(10) == 1024;
  }

  // ---- instructions ----

  function CvtF32F16(h: Half, flush: bool): Finite
    requires IsFinite(h)
  {
    Flush(Value(h), flush)
  }

  function AddF32(a: Finite, b: Finite): Finite { RoundTo(24, Sum(a, b)) }

  function CvtF16F32(f: Finite, flush: bool): Half { Encode(Flush(RoundTo(11, f), flush)) }

  function AddF16(a: Half, b: Half, flush: bool): Half
    requires IsFinite(a) && IsFinite(b)
  {
    Encode(Flush(RoundTo(11, Sum(Flush(Value(a), flush), Flush(Value(b), flush))), flush))
  }

  // ---- agreement ----

  /** Every half is an 11-bit significand times a power of two. */
  lemma HalfFits(h: Half, flush: bool) returns (c: nat, k: nat)
    requires IsFinite(h)
    ensures Fits(11, Flush(Value(h), flush).mag, c, k) && k <= 29
  {
    assert Pow2(11) == 2048 by { Pow2Eleven(); }
    if flush && Value(h).mag < 1024 { c, k := 0, 0; }
    else if Exponent(h) == 0 { c, k := Fraction(h), 0; }
    else { c, k := 1024 + Fraction(h), Exponent(h) - 1; }
  }

  /** Double rounding is harmless: for all finite halves the storage kernel's three instructions
      compute, bit for bit, the one correctly rounded native add. */
  lemma StorageMatchesNative(a: Half, b: Half, flush: bool)
    requires IsFinite(a) && IsFinite(b)
    ensures CvtF16F32(AddF32(CvtF32F16(a, flush), CvtF32F16(b, flush)), flush) == AddF16(a, b, flush)
  {
    var x, y := Flush(Value(a), flush), Flush(Value(b), flush);
    var c, i := HalfFits(a, flush);
    var d, j := HalfFits(b, flush);
    if i >= j {
      DoubleRounding(11, 24, c, i, d, j, Sum(x, y).mag);
    } else {
      DoubleRounding(11, 24, d, j, c, i, Sum(x, y).mag);
    }
  }

  // ---- what the native add means ----

  /** Encoding an 11-bit value below 2^16 (2^40 units) and reading it back gives the value. */
  lemma EncodeValue(f: Finite)
    requires Representable(11, f.mag) && f.mag < Pow2(40)
    ensures IsFinite(Encode(f)) && Value(Encode(f)) == f
  {
    if f.mag >= 1024 {
      Pow2Eleven();
      var s := Significand(11, f.mag);
      var e := BitLen(f.mag) - 10;
      NormalRange(f.mag);
      EncodeNormal(f, s, e);
      FieldsOf(Encode(f), f.neg, e, s - 1024);
    } else {
      FieldsOf(Encode(f), f.neg, 0, f.mag);
    }
  }

  lemma NormalRange(n: nat)
    requires 1024 <= n < Pow2(40)
    ensures 10 < BitLen(n) <= 40
  {
    Pow2Eleven();
    LongerThanP(10, n);
    if BitLen(n) > 40 { Pow2Mono(40, BitLen(n) - 1); }
  }

  lemma EncodeNormal(f: Finite, s: nat, e: nat)
    requires f.mag >= 1024 && 0 < e < 31 && BitLen(f.mag) == e + 10
    requires 1024 <= s < 2048 && f.mag == s * Pow2(e - 1)
    ensures Encode(f) == (if f.neg then 32 + e else e) * 1024 + (s - 1024)
  {
    DivideOut(s, Pow2(e - 1));
  }

  lemma FieldsOf(h: Half, neg: bool, e: nat, m: nat)
    requires e < 32 && m < 1024 && h == (if neg then 32 + e else e) * 1024 + m
    ensures Exponent(h) == e && Fraction(h) == m && (h >= 0x8000 <==> neg)
  {
    DivUnique(h, 1024, if neg then 32 + e else e, m);
  }

  /** 65520 in units of 2^-24: half way between the largest half and 2^16. */
  const OVERFLOW := 65520 * 0x100_0000

  /** With denormals kept, the sum is the half nearest to the exact sum of the signed values, in units of 2^-24, as
      long as that is nearer to the largest half than to 2^16; of two nearest halves it is the one with an even last
      bit, and a zero sum is negative when both operands are. */
  lemma NativeAddNearest(a: Half, b: Half, h: Half)
    requires IsFinite(a) && IsFinite(b) && IsFinite(h)
    requires Abs(Signed(Value(a)) + Signed(Value(b))) < OVERFLOW
    ensures var x, r := Signed(Value(a)) + Signed(Value(b)), AddF16(a, b, false);
            && IsFinite(r) && Abs(Signed(Value(r)) - x) <= Abs(Signed(Value(h)) - x)
            && (Abs(Signed(Value(r)) - x) == Abs(Signed(Value(h)) - x) && Signed(Value(r)) != Signed(Value(h)) ==>
                  r % 2 == 0)
            && (x != 0 ==> (r >= 0x8000 <==> x < 0))
            && (x == 0 ==> r == if a >= 0x8000 && b >= 0x8000 then 0x8000 else 0)
  {
    ExactSum(a, b);
    BelowLimit(Abs(Signed(Value(a)) + Signed(Value(b))));
    NearestSum(RoundTo(11, Sum(Value(a), Value(b))), Signed(Value(a)) + Signed(Value(b)), h);
  }

  lemma ExactSum(a: Half, b: Half)
    requires IsFinite(a) && IsFinite(b)
    ensures var x, f := Signed(Value(a)) + Signed(Value(b)), RoundTo(11, Sum(Value(a), Value(b)));
            && AddF16(a, b, false) == Encode(f) && f.mag == Round(11, Abs(x))
            && (if x == 0 then f.neg <==> a >= 0x8000 && b >= 0x8000 else f.neg <==> x < 0)
  {
    SumExact(Value(a), Value(b));
    AddEncodes(a, b);
    SignBit(a);
    SignBit(b);
  }

  lemma NearestSum(f: Finite, x: int, h: Half)
    requires f.mag == Round(11, Abs(x)) && f.mag < Pow2(40) && (x != 0 ==> (f.neg <==> x < 0)) && IsFinite(h)
    ensures var r := Encode(f);
            && IsFinite(r) && Abs(Signed(Value(r)) - x) <= Abs(Signed(Value(h)) - x)
            && (Abs(Signed(Value(r)) - x) == Abs(Signed(Value(h)) - x) && Signed(Value(r)) != Signed(Value(h)) ==>
                  r % 2 == 0)
            && (x != 0 ==> (r >= 0x8000 <==> x < 0))
            && (x == 0 ==> r == if f.neg then 0x8000 else 0)
  {
    NearestBits(f, Abs(x), h);
    NearestSign(f, Abs(x), x, Value(h));
  }

  lemma AddEncodes(a: Half, b: Half)
    requires IsFinite(a) && IsFinite(b)
    ensures AddF16(a, b, false) == Encode(RoundTo(11, Sum(Value(a), Value(b))))
  {}

  lemma SignBit(h: Half)
    requires IsFinite(h)
    ensures Value(h).neg <==> h >= 0x8000
  {}

  lemma Limit()
    ensures Pow2(40) - Pow2(28) == OVERFLOW
  {
    Pow2Eleven();
    Pow2Add(10, 10);
    Pow2Add(20, 8);
    Pow2Add(20, 20);
    assert Pow2(8) == 256;
  }

  lemma BelowLimit(n: nat)
    ensures Round(11, n) < Pow2(40) <==> n < OVERFLOW
  {
    RoundsBelow(11, 40, n);
    Limit();
  }

  lemma NearestBits(f: Finite, n: nat, h: Half)
    requires f.mag == Round(11, n) && f.mag < Pow2(40) && IsFinite(h)
    ensures IsFinite(Encode(f)) && Value(Encode(f)) == f
    ensures (Encode(f) >= 0x8000 <==> f.neg) && (f.mag == 0 ==> Encode(f) == if f.neg then 0x8000 else 0)
    ensures Dist(f.mag, n) <= Dist(Value(h).mag, n)
    ensures Dist(f.mag, n) == Dist(Value(h).mag, n) && f.mag != Value(h).mag ==> Encode(f) % 2 == 0
  {
    RoundRepresentable(11, n);
    EncodeValue(f);
    NearestMagnitude(n, h);
    if Dist(f.mag, n) == Dist(Value(h).mag, n) && f.mag != Value(h).mag { TieEncoding(f, n, Value(h).mag); }
    if f.mag == 0 { ZeroEncoded(f); }
  }

  lemma NearestSign(f: Finite, n: nat, x: int, v: Finite)
    requires f.mag == Round(11, n) && n == Abs(x) && Dist(f.mag, n) <= Dist(v.mag, n) && (x != 0 ==> (f.neg <==> x < 0))
    ensures Abs(Signed(f) - x) <= Abs(Signed(v) - x)
    ensures Abs(Signed(f) - x) == Abs(Signed(v) - x) && Signed(f) != Signed(v) ==>
              Dist(f.mag, n) == Dist(v.mag, n) && f.mag != v.mag
    ensures x == 0 ==> f.mag == 0
  {
    FitsRepresentable(11, 0, 0, 0);
    RoundNearest(11, n, 0);
    SignedNearest(x, f, v);
  }

  lemma NearestMagnitude(n: nat, h: Half)
    requires IsFinite(h)
    ensures Representable(11, Value(h).mag) && Dist(Round(11, n), n) <= Dist(Value(h).mag, n)
  {
    var c, k := HalfFits(h, false);
    FitsRepresentable(11, Value(h).mag, c, k);
    RoundNearest(11, n, Value(h).mag);
  }

  lemma ZeroEncoded(f: Finite)
    requires f.mag == 0
    ensures Encode(f) == if f.neg then 0x8000 else 0
  {}

  /** From there on it is the infinity of its sign, in both float modes. */
  lemma NativeAddOverflows(a: Half, b: Half)
    requires IsFinite(a) && IsFinite(b)
    requires Abs(Signed(Value(a)) + Signed(Value(b))) >= OVERFLOW
    ensures AddF16(a, b, false) == if Signed(Value(a)) + Signed(Value(b)) < 0 then 0xfc00 else 0x7c00
  {
    ExactSum(a, b);
    BelowLimit(Abs(Signed(Value(a)) + Signed(Value(b))));
    TooLarge(RoundTo(11, Sum(Value(a), Value(b))));
  }

  lemma TooLarge(f: Finite)
    requires f.mag >= Pow2(40)
    ensures Encode(f) == (if f.neg then 0xfc00 else 0x7c00) && Exponent(Encode(f)) == 31
  {
    Pow2Eleven();
    Pow2Mono(10, 40);
    LongerThanP(40, f.mag);
    FieldsOf(if f.neg then 0xfc00 else 0x7c00, f.neg, 31, 0);
  }

  /** A half whose bits say denormal gives way to the zero of its sign. */
  function ZeroForDenormal(h: Half): Half {
    if Exponent(h) != 0 then h else if h >= 0x8000 then 0x8000 else 0
  }

  /** With denormals flushed, the add is that of the operands without denormals, and a denormal sum is a zero. */
  lemma FlushedAdd(a: Half, b: Half)
    requires IsFinite(a) && IsFinite(b)
    ensures IsFinite(ZeroForDenormal(a)) && IsFinite(ZeroForDenormal(b))
    ensures AddF16(a, b, true) == ZeroForDenormal(AddF16(ZeroForDenormal(a), ZeroForDenormal(b), false))
  {
    FlushedValue(a);
    FlushedValue(b);
    FlushedBits(RoundTo(11, Sum(Flush(Value(a), true), Flush(Value(b), true))));
  }

  lemma FlushedValue(h: Half)
    requires IsFinite(h)
    ensures IsFinite(ZeroForDenormal(h)) && Value(ZeroForDenormal(h)) == Flush(Value(h), true)
    ensures Flush(Value(ZeroForDenormal(h)), false) == Value(ZeroForDenormal(h))
  {
    if Exponent(h) != 0 { MulMono(1, Pow2(Exponent(h) - 1), 1024 + Fraction(h)); }
  }

  lemma FlushedBits(f: Finite)
    ensures Encode(Flush(f, true)) == ZeroForDenormal(Encode(f))
  {
    if f.mag < 1024 {
      FieldsOf(Encode(f), f.neg, 0, f.mag);
    } else {
      EncodedNormal(f);
    }
  }

  lemma EncodedNormal(f: Finite)
    requires f.mag >= 1024
    ensures Exponent(Encode(f)) != 0
  {
    Pow2Eleven();
    LongerThanP(10, f.mag);
    var e := BitLen(f.mag) - 10;
    if e >= 31 { FieldsOf(Encode(f), f.neg, 31, 0); } else { FieldsOf(Encode(f), f.neg, e, f.mag / Pow2(e - 1) % 1024); }
  }

  lemma TieEncoding(f: Finite, n: nat, m: nat)
    requires f.mag == Round(11, n) && Representable(11, m) && m != Round(11, n) && Dist(m, n) == Dist(Round(11, n), n)
    ensures Encode(f) % 2 == 0
  {
    var c := TiesToEven(11, n, m);
    EvenEncoding(f, n, c);
  }

  /** An even multiple of the unit is encoded with an even last bit. */
  lemma EvenEncoding(f: Finite, n: nat, c: nat)
    requires n >= Pow2(11) && BitLen(n) > 11 && f.mag == Round(11, n) == c * Pow2(BitLen(n) - 11) && c % 2 == 0
    ensures Encode(f) % 2 == 0
  {
    var l := BitLen(n);
    BitLenBounds(n);
    Pow2Add(11, l - 11);
    Pow2Add(10, l - 11);
    Pow2Eleven();
    RoundBetween(11, n, l);
    if f.mag == Pow2(l) {
      EvenAtPower(f, l);
    } else {
      BitLenUnique(f.mag, l);
      LastBit(f, c, l, Pow2(l - 11));
    }
  }

  lemma LastBit(f: Finite, c: nat, l: nat, u: nat)
    requires l > 11 && BitLen(f.mag) == l && u == Pow2(l - 11) && f.mag == c * u && f.mag >= 1024 && c % 2 == 0
    ensures Encode(f) % 2 == 0
  {
    DivideOut(c, u);
    EncodeBits(f, l, c);
    EvenSum(l - 10, c);
  }

  /** The three fields of an encoded value that is not denormal. */
  lemma EncodeBits(f: Finite, l: nat, d: nat)
    requires f.mag >= 1024 && l == BitLen(f.mag) > 11 && d == f.mag / Pow2(l - 11)
    ensures Encode(f) == (if f.neg then 0x8000 else 0) + if l >= 41 then 0x7c00 else (l - 10) * 1024 + d % 1024
  {}

  lemma EvenSum(e: nat, c: nat)
    requires c % 2 == 0
    ensures (e * 1024 + c % 1024) % 2 == 0 && (0x8000 + e * 1024 + c % 1024) % 2 == 0
  {}

  lemma EvenAtPower(f: Finite, l: nat)
    requires f.mag == Pow2(l) && l > 11
    ensures Encode(f) % 2 == 0
  {
    Pow2Eleven();
    Pow2Mono(11, l);
    BitLenUnique(f.mag, l + 1);
    Pow2Add(10, l - 10);
    DivideOut(1024, Pow2(l - 10));
  }
}
