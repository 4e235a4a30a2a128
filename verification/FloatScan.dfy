/** The prefix-sum kernel with v_add_f32: on whole numbers with a total up to 2^24 every register of every step is
    exact, so the host's exact comparison accepts what the kernel leaves in memory. */
module FloatScan {
  import opened Bits
  import opened Binary32
  import opened Memory
  import opened Rounding
  import opened Wave
  import D = DppScan
  import FloatKernels

  // ---- whole numbers as floats ----

  /** The 24-bit significand of a whole number. */
  function WholeSignificand(x: nat): nat {
    if BitLen(x) <= 24 then x * Pow2(24 - BitLen(x)) else x / Pow2(BitLen(x) - 24)
  }

  /** The float that is the whole number x, for x up to 2^24. */
  function Enc(x: nat): Float {
    if x == 0 || BitLen(x) > 25 then 0 else
      PatternFields(0, BitLen(x) + 126, WholeSignificand(x) % 0x80_0000);
      Pattern(0, BitLen(x) + 126, WholeSignificand(x) % 0x80_0000)
  }

  lemma WholeParts(x: nat)
    requires 0 < x <= 0x100_0000
    ensures 1 <= BitLen(x) <= 25 && 0x80_0000 <= WholeSignificand(x) < 0x100_0000
    ensures WholeSignificand(x) * Pow2(BitLen(x)) == x * Pow2(24)
  {
    TwentyFour();
    BitLenBounds(x);
    if BitLen(x) <= 24 {
      ShiftUp(x, BitLen(x), 24 - BitLen(x), WholeSignificand(x));
    } else {
      Pow2Mono(24, BitLen(x) - 1);
      LargestWhole(x);
    }
  }

  lemma ShiftUp(x: nat, l: nat, t: nat, c: nat)
    requires 0 < l && l + t == 24 && Pow2(l - 1) <= x < Pow2(l) && c == x * Pow2(t)
    ensures Pow2(23) <= c < Pow2(24) && c * Pow2(l) == x * Pow2(24)
  {
    Pow2Add(l - 1, t);
    Pow2Add(t, l);
    MulMono(Pow2(l - 1), x, Pow2(t));
    Pow2Add(l, t);
    MulStep(x, Pow2(l), Pow2(t));
    MulAssoc(x, Pow2(t), Pow2(l));
  }

  lemma LargestWhole(x: nat)
    requires x == 0x100_0000
    ensures BitLen(x) == 25 && WholeSignificand(x) == 0x80_0000 && 0x80_0000 * Pow2(25) == x * Pow2(24)
  {
    TwentyFour();
    assert Pow2(25) == 2 * Pow2(24);
    BitLenUnique(x, 25);
    assert Pow2(1) == 2;
  }

  lemma ZeroFloat(n: nat)
    requires n == 0
    ensures Ordinary(Enc(0)) && Enc(0) == 0
    ensures FloatValue(0) == Finite(false, n) && FloatBits(Finite(false, n)) == 0 && Round(24, n) == n
  {
    ZeroBits(n);
  }

  lemma ZeroBits(n: nat)
    requires n == 0
    ensures FloatValue(0) == Finite(false, n) && FloatBits(Finite(false, n)) == 0 && Round(24, n) == n
  {
    FitsRepresentable(24, n, 0, 0);
    RoundExact(24, n);
  }

  /** Its value n, in units of 2^-149; `one` is 149. */
  lemma WholeFloat(x: nat, one: nat, n: nat)
    requires x <= 0x100_0000 && one + 1 == 150 && n == x * Pow2(one)
    ensures Ordinary(Enc(x)) && Round(24, n) == n
    ensures FloatValue(Enc(x)) == Finite(false, n) && FloatBits(Finite(false, n)) == Enc(x)
  {
    if x == 0 {
      ZeroFloat(n);
    } else {
      WholeParts(x);
      Rescale(x, WholeSignificand(x), BitLen(x), one, n);
      BitLenShifted(x, one);
      LargeEnough(x, one);
      PositiveFloat(x, WholeSignificand(x), BitLen(x), n);
    }
  }

  lemma PositiveFloat(x: nat, c: nat, l: nat, n: nat)
    requires 0 < x && l == BitLen(x) && 1 <= l <= 25 && c == WholeSignificand(x) && 0x80_0000 <= c < 0x100_0000
    requires n == c * Pow2(l + 125) && BitLen(n) == l + 149 && n >= 0x80_0000
    ensures Ordinary(Enc(x)) && Round(24, n) == n
    ensures FloatValue(Enc(x)) == Finite(false, n) && FloatBits(Finite(false, n)) == Enc(x)
  {
    TwentyFour();
    FitsRepresentable(24, n, c, l + 125);
    RoundExact(24, n);
    NormalBits(Finite(false, n), c, l + 126);
    PatternFields(0, l + 126, c - 0x80_0000);
    assert c % 0x80_0000 == c - 0x80_0000;
  }

  lemma Rescale(x: nat, c: nat, l: nat, one: nat, n: nat)
    requires one + 1 == 150 && n == x * Pow2(one) && c * Pow2(l) == x * Pow2(24)
    ensures n == c * Pow2(l + 125)
  {
    Pow2Add(24, one - 24);
    Pow2Add(l, one - 24);
    MulAssoc(x, Pow2(24), Pow2(one - 24));
    MulAssoc(c, Pow2(l), Pow2(one - 24));
    assert l + (one - 24) == l + 125;
  }

  lemma LargeEnough(x: nat, k: nat)
    requires x > 0 && k >= 23
    ensures x * Pow2(k) >= 0x80_0000
  {
    TwentyFour();
    Pow2Mono(23, k);
    MulMono(1, x, Pow2(k));
  }

  /** A sum of positive floats that is representable is exact. */
  lemma AddExactly(s: Float, t: Float, r: Float, a: nat, b: nat, n: nat)
    requires FloatValue(s) == Finite(false, a) && FloatValue(t) == Finite(false, b) && FloatBits(Finite(false, n)) == r
    requires n == a + b && Round(24, n) == n
    ensures AddFloat(s, t) == r
  {}

  /** Sums of whole numbers up to 2^24 are exact. */
  lemma AddWhole(x: nat, y: nat, one: nat)
    requires x + y <= 0x100_0000 && one + 1 == 150
    ensures AddFloat(Enc(x), Enc(y)) == Enc(x + y)
    ensures Ordinary(Enc(x)) && Ordinary(Enc(y)) && Ordinary(Enc(x + y))
  {
    MulAdd(x, y, Pow2(one));
    AddScaled(x, y, x + y, one, x * Pow2(one), y * Pow2(one), (x + y) * Pow2(one));
  }

  lemma AddScaled(x: nat, y: nat, z: nat, one: nat, a: nat, b: nat, n: nat)
    requires x <= z <= 0x100_0000 && y <= z && one + 1 == 150 && n == a + b
    requires a == x * Pow2(one) && b == y * Pow2(one) && n == z * Pow2(one)
    ensures AddFloat(Enc(x), Enc(y)) == Enc(z) && Ordinary(Enc(x)) && Ordinary(Enc(y)) && Ordinary(Enc(z))
  {
    WholeFloat(x, one, a);
    WholeFloat(y, one, b);
    WholeFloat(z, one, n);
    AddExactly(Enc(x), Enc(y), Enc(z), a, b, n);
  }

  /** v_add_f32 computes the correctly rounded sum, at least where neither an operand nor the result is denormal,
      infinite or not a number. */
  ghost predicate IsAddF32(add: D.Add<Word>) {
    forall a: Word, b: Word {:trigger AddFloat(a, b)} ::
      Ordinary(a) && Ordinary(b) && Ordinary(AddFloat(a, b)) ==> add(a, b) == AddFloat(a, b)
  }

  lemma AddExact(add: D.Add<Word>, x: nat, y: nat)
    requires IsAddF32(add) && x + y <= 0x100_0000
    ensures add(Enc(x), Enc(y)) == Enc(x + y)
  {
    AddWhole(x, y, 149);
    AddOrdinary(add, Enc(x), Enc(y), Enc(x + y));
  }

  lemma AddF32Whole(add: D.Add<Word>)
    requires IsAddF32(add)
    ensures forall x: nat, y: nat {:trigger add(Enc(x), Enc(y))} ::
              x + y <= 0x100_0000 ==> add(Enc(x), Enc(y)) == Enc(x + y)
  {
    forall x: nat, y: nat {:trigger add(Enc(x), Enc(y))} | x + y <= 0x100_0000
      ensures add(Enc(x), Enc(y)) == Enc(x + y)
    {
      AddExact(add, x, y);
    }
  }

  /** Such an add respects whole numbers. */
  lemma AddF32Respects(add: D.Add<Word>, enc: nat -> Word)
    requires IsAddF32(add) && enc == Enc
    ensures Respects(add, enc)
  {
    AddF32Whole(add);
    ZeroFloat(0);
  }

  lemma AddOrdinary(add: D.Add<Word>, a: Word, b: Word, c: Word)
    requires IsAddF32(add) && Ordinary(a) && Ordinary(b) && Ordinary(c) && AddFloat(a, b) == c
    ensures add(a, b) == c
  {}

  /** Over all register contents no such add has identity 0: adding it to negative zero gives positive zero. */
  lemma F32NotMonoid(add: D.Add<Word>)
    requires IsAddF32(add)
    ensures add(0x8000_0000, 0) == 0 && !D.Monoid<Word>(add, 0)
  {
    NegativeZeroSum(0x8000_0000, 0, 0);
    AddOrdinary(add, 0x8000_0000, 0, 0);
  }

  lemma NegativeZeroSum(a: Float, b: Float, n: nat)
    requires a == 0x8000_0000 && b == 0 && n == 0
    ensures AddFloat(a, b) == 0
  {
    NegativeZero(a, n);
    ZeroBits(n);
    Opposites(Finite(true, n), Finite(false, n), n);
    AddIs(a, b, Finite(true, n), Finite(false, n), Finite(false, n));
    ZeroRounds(Finite(false, n), n);
  }

  lemma NegativeZero(a: Float, n: nat)
    requires a == 0x8000_0000 && n == 0
    ensures FloatValue(a) == Finite(true, n)
  {}

  lemma AddIs(s: Float, t: Float, x: Finite, y: Finite, z: Finite)
    requires FloatValue(s) == x && FloatValue(t) == y && Sum(x, y) == z
    ensures AddFloat(s, t) == FloatBits(RoundTo(24, z))
  {}

  lemma Opposites(x: Finite, y: Finite, n: nat)
    requires x == Finite(true, n) && y == Finite(false, n)
    ensures Sum(x, y) == Finite(false, 0)
  {}

  lemma ZeroRounds(f: Finite, n: nat)
    requires f == Finite(false, n) && n == 0
    ensures RoundTo(24, f) == f && FloatBits(f) == 0
  {}

  // ---- the seven adds, for any encoding that add respects ----

  /** Adding encoded whole numbers is adding whole numbers, up to 2^24. */
  ghost predicate Respects(add: D.Add<Word>, enc: nat -> Word) {
    && enc(0) == 0
    && forall x: nat, y: nat {:trigger add(enc(x), enc(y))} ::
         x + y <= 0x100_0000 ==> add(enc(x), enc(y)) == enc(x + y)
  }

  function EncAll(enc: nat -> Word, x: seq<nat>): (r: seq<Word>)
    ensures |r| == |x|
  {
    seq(|x|, i requires 0 <= i < |x| => enc(x[i]))
  }

  /** The old register content reaches no lane. */
  predicate Overwrites(ctrl: D.Ctrl, rowMask: nat, bankMask: nat, boundCtrl: bool) {
    boundCtrl && forall i :: 0 <= i < LANES ==> D.Enabled(i, rowMask, bankMask)
  }

  /** One add on floats is the add on whole numbers. */
  lemma DppExact(add: D.Add<Word>, enc: nat -> Word, old': seq<Word>, dst: seq<nat>, src0: seq<nat>, src1: seq<nat>,
                 ctrl: D.Ctrl, rowMask: nat, bankMask: nat, boundCtrl: bool)
    requires Respects(add, enc) && |old'| == |dst| == |src0| == |src1| == LANES
    requires old' == EncAll(enc, dst) || Overwrites(ctrl, rowMask, bankMask, boundCtrl)
    requires D.Bounded(D.DppAdd<nat>(D.PlusNat, 0, dst, src0, src1, ctrl, rowMask, bankMask, boundCtrl), 0x100_0000)
    ensures D.DppAdd<Word>(add, 0, old', EncAll(enc, src0), EncAll(enc, src1), ctrl, rowMask, bankMask, boundCtrl)
         == EncAll(enc, D.DppAdd<nat>(D.PlusNat, 0, dst, src0, src1, ctrl, rowMask, bankMask, boundCtrl))
  {
    var r := D.DppAdd<nat>(D.PlusNat, 0, dst, src0, src1, ctrl, rowMask, bankMask, boundCtrl);
    var w := D.DppAdd<Word>(add, 0, old', EncAll(enc, src0), EncAll(enc, src1), ctrl, rowMask, bankMask, boundCtrl);
    forall i | 0 <= i < LANES
      ensures w[i] == enc(r[i])
    {
      LaneExact(add, enc, old', dst, src0, src1, ctrl, rowMask, bankMask, boundCtrl, i);
    }
  }

  lemma LaneExact(add: D.Add<Word>, enc: nat -> Word, old': seq<Word>, dst: seq<nat>, src0: seq<nat>, src1: seq<nat>,
                  ctrl: D.Ctrl, rowMask: nat, bankMask: nat, boundCtrl: bool, i: nat)
    requires Respects(add, enc) && |old'| == |dst| == |src0| == |src1| == LANES && i < LANES
    requires old' == EncAll(enc, dst) || Overwrites(ctrl, rowMask, bankMask, boundCtrl)
    requires D.DppLane<nat>(D.PlusNat, 0, dst, src0, src1, ctrl, rowMask, bankMask, boundCtrl, i) <= 0x100_0000
    ensures D.DppLane<Word>(add, 0, old', EncAll(enc, src0), EncAll(enc, src1), ctrl, rowMask, bankMask, boundCtrl, i)
         == enc(D.DppLane<nat>(D.PlusNat, 0, dst, src0, src1, ctrl, rowMask, bankMask, boundCtrl, i))
  {
    var j := D.Source(ctrl, i);
    if D.Enabled(i, rowMask, bankMask) {
      if j < 0 && boundCtrl { assert add(enc(0), enc(src1[i])) == enc(0 + src1[i]); }
    }
  }

  lemma StepExact(add: D.Add<Word>, enc: nat -> Word, v0: seq<nat>, old': seq<Word>, v: seq<nat>, n: nat)
    requires Respects(add, enc) && |v0| == |v| == |old'| == LANES && 1 <= n <= 7
    requires n == 1 || old' == EncAll(enc, v)
    requires D.Bounded(D.Step<nat>(D.PlusNat, 0, v0, v, n), 0x100_0000)
    ensures D.Step<Word>(add, 0, EncAll(enc, v0), old', n) == EncAll(enc, D.Step<nat>(D.PlusNat, 0, v0, v, n))
  {
    match n
    case 1 =>
      forall i | 0 <= i < LANES
        ensures D.Enabled(i, 0xf, 0xf)
      {
        D.Masks(i);
      }
      DppExact(add, enc, old', v, v0, v0, D.RowShr(1), 0xf, 0xf, true);
    case 2 => DppExact(add, enc, old', v, v0, v, D.RowShr(2), 0xf, 0xf, true);
    case 3 => DppExact(add, enc, old', v, v0, v, D.RowShr(3), 0xf, 0xf, true);
    case 4 => DppExact(add, enc, old', v, v, v, D.RowShr(4), 0xf, 0xe, false);
    case 5 => DppExact(add, enc, old', v, v, v, D.RowShr(8), 0xf, 0xc, false);
    case 6 => DppExact(add, enc, old', v, v, v, D.RowBcast15, 0xa, 0xf, false);
    case _ => DppExact(add, enc, old', v, v, v, D.RowBcast31, 0xc, 0xf, false);
  }

  /** After every step each register holds a whole number, at most the total of the inputs: the number that adding
      without rounding gives. */
  lemma {:induction false} StepsExact(add: D.Add<Word>, enc: nat -> Word, x: seq<nat>, junk: seq<Word>, n: nat)
    requires Respects(add, enc) && |x| == |junk| == LANES && 1 <= n <= 7 && D.Total(x) <= 0x100_0000
    ensures D.Steps<Word>(add, 0, EncAll(enc, x), junk, n) == EncAll(enc, D.Steps<nat>(D.PlusNat, 0, x, x, n))
    ensures D.Bounded(D.Steps<nat>(D.PlusNat, 0, x, x, n), D.Total(x))
    decreases n
  {
    if n > 1 { StepsExact(add, enc, x, junk, n - 1); }
    D.StepsBounded(x, x, n);
    StepExact(add, enc, x, D.Steps<Word>(add, 0, EncAll(enc, x), junk, n - 1), D.Steps<nat>(D.PlusNat, 0, x, x, n - 1), n);
  }

  /** The host's running sum is exact too. */
  lemma {:induction false} FoldExact(add: D.Add<Word>, enc: nat -> Word, x: seq<nat>, lo: nat, hi: nat)
    requires Respects(add, enc) && lo <= hi <= |x| && D.Total(x) <= 0x100_0000
    ensures D.Fold<Word>(add, 0, EncAll(enc, x), lo, hi) == enc(D.Fold<nat>(D.PlusNat, 0, x, lo, hi))
    decreases hi
  {
    if lo < hi {
      FoldExact(add, enc, x, lo, hi - 1);
      D.FoldBelowTotal(x, lo, hi);
      assert EncAll(enc, x)[hi - 1] == enc(x[hi - 1]);
    }
  }

  // ---- from memory to memory ----

  /** The sums reach memory, and the host computes the same ones. */
  lemma SumsStored(m: Mem, add: D.Add<Word>, enc: nat -> Word, in': nat, out: nat, v1Before: Vgpr, x: seq<nat>, i: nat)
    requires BufferAt(m, in', DWORD) && BufferAt(m, out, DWORD) && Respects(add, enc) && i < LANES
    requires |x| == LANES && D.Total(x) <= 0x100_0000 && Elements(m, in', DWORD) == EncAll(enc, x)
    ensures var m' := StoreAll(m, out, DWORD, D.Steps<Word>(add, 0, Elements(m, in', DWORD), v1Before, 7));
            && BufferAt(m', out, DWORD)
            && Element(m', out, DWORD, i) == enc(D.Fold<nat>(D.PlusNat, 0, x, 0, i + 1))
            && Element(m', out, DWORD, i) == D.Fold<Word>(add, 0, Elements(m, in', DWORD), i / 64 * 64, i + 1)
            && forall k :: k in m && !(out <= k < out + 64 * DWORD) ==> k in m' && m'[k] == m[k]
  {
    assert i / 64 * 64 == 0;
    TwoTo32();
    StepsExact(add, enc, x, v1Before, 7);
    D.ScanIsPrefixSum<nat>(D.PlusNat, 0, x, x, i);
    FoldExact(add, enc, x, 0, i + 1);
    StoreEffect(m, out, DWORD, D.Steps<Word>(add, 0, Elements(m, in', DWORD), v1Before, 7), i);
  }

  /** What dpp_reduce leaves in memory when its input buffer holds whole numbers as floats. */
  lemma FloatSums(m: Mem, add: D.Add<Word>, in': nat, out: nat, v1Before: Vgpr, x: seq<nat>, i: nat)
    requires BufferAt(m, in', DWORD) && BufferAt(m, out, DWORD) && IsAddF32(add) && i < LANES
    requires |x| == LANES && D.Total(x) <= 0x100_0000 && Elements(m, in', DWORD) == EncAll(Enc, x)
    ensures var m' := StoreAll(m, out, DWORD, D.Steps<Word>(add, 0, Elements(m, in', DWORD), v1Before, 7));
            && BufferAt(m', out, DWORD)
            && Element(m', out, DWORD, i) == Enc(D.Fold<nat>(D.PlusNat, 0, x, 0, i + 1))
            && forall k :: k in m && !(out <= k < out + 64 * DWORD) ==> k in m' && m'[k] == m[k]
  {
    AddF32Respects(add, Enc);
    SumsStored(m, add, Enc, in', out, v1Before, x, i);
  }

  /** So every element the host reads back is its own float running sum, bit for bit. */
  lemma KernelPassesVerify(m: Mem, add: D.Add<Word>, in': nat, out: nat, v1Before: Vgpr, x: seq<nat>, i: nat)
    requires BufferAt(m, in', DWORD) && BufferAt(m, out, DWORD) && IsAddF32(add) && i < LANES
    requires |x| == LANES && D.Total(x) <= 0x100_0000 && Elements(m, in', DWORD) == EncAll(Enc, x)
    ensures var m' := StoreAll(m, out, DWORD, D.Steps<Word>(add, 0, Elements(m, in', DWORD), v1Before, 7));
            && BufferAt(m', out, DWORD)
            && Element(m', out, DWORD, i) == D.Fold<Word>(add, 0, Elements(m, in', DWORD), i / 64 * 64, i + 1)
  {
    AddF32Respects(add, Enc);
    SumsStored(m, add, Enc, in', out, v1Before, x, i);
  }

  /** The sums of inputs 0 to i. */
  function RunningSums(x: seq<nat>): (r: seq<nat>)
    ensures |r| == |x|
  {
    seq(|x|, i requires 0 <= i < |x| => D.Fold<nat>(D.PlusNat, 0, x, 0, i + 1))
  }

  /** The test of the host's loop. */
  predicate Accepted(add: D.Add<Word>, input: Vgpr, output: Vgpr) {
    forall i :: 0 <= i < LANES ==> output[i] == D.Fold<Word>(add, 0, input, i / 64 * 64, i + 1)
  }

  /** A dispatch from the host's two buffer arguments to its verdict: the memory holds the running sums and the
      host accepts them. */
  method DispatchAndVerify(m: Mem, k: nat, add: D.Add<Word>, in': nat, out: nat, ghost x: seq<nat>)
    returns (m': Mem, ok: bool)
    requires BufferAt(m, in', DWORD) && BufferAt(m, out, DWORD) && Apart(in', DWORD, k, 16) && IsAddF32(add)
    requires |x| == LANES && D.Total(x) <= 0x100_0000 && Elements(m, in', DWORD) == EncAll(Enc, x)
    ensures BufferAt(m', out, DWORD) && Elements(m', out, DWORD) == EncAll(Enc, RunningSums(x)) && ok
    ensures forall a :: a in m ==> a in m' && (k <= a < k + 16 || out <= a < out + 256 || m'[a] == m[a])
  {
    var m1 := PassBuffers(m, k, in', out);
    m' := RunKernel(m1, k, add, in', out, x);
    ok := HostVerify(add, Elements(m, in', DWORD), Elements(m', out, DWORD));
  }

  method HostVerify(add: D.Add<Word>, input: Vgpr, output: Vgpr) returns (ok: bool)
    ensures ok <==> Accepted(add, input, output)
  {
    ok := D.Verify<Word>(add, 0, input, output);
  }

  /** The kernel on arguments that are in place. */
  method RunKernel(m: Mem, k: nat, add: D.Add<Word>, in': nat, out: nat, ghost x: seq<nat>) returns (m': Mem)
    requires PointsTo(m, k, in') && PointsTo(m, k + 8, out) && IsAddF32(add)
    requires BufferAt(m, in', DWORD) && BufferAt(m, out, DWORD)
    requires |x| == LANES && D.Total(x) <= 0x100_0000 && Elements(m, in', DWORD) == EncAll(Enc, x)
    ensures BufferAt(m', out, DWORD) && KeptOutside(m, m', out, 256)
    ensures Elements(m', out, DWORD) == EncAll(Enc, RunningSums(x))
    ensures Accepted(add, Elements(m, in', DWORD), Elements(m', out, DWORD))
  {
    m' := FloatKernels.PrefixSum(m, k, add, in', out);
    AllSums(m, add, in', out, AddU32(Dword(m, k), Lshl(WORK_ITEM, 2)), x, m');
  }

  /** What is in place when the kernel starts. */
  method PassBuffers(m: Mem, k: nat, in': nat, out: nat) returns (m': Mem)
    requires BufferAt(m, in', DWORD) && BufferAt(m, out, DWORD) && Apart(in', DWORD, k, 16)
    ensures PointsTo(m', k, in') && PointsTo(m', k + 8, out) && KeptOutside(m, m', k, 16)
    ensures BufferAt(m', in', DWORD) && BufferAt(m', out, DWORD)
    ensures Elements(m', in', DWORD) == Elements(m, in', DWORD)
  {
    AddressFits(m, in', DWORD);
    AddressFits(m, out, DWORD);
    var args := [in', out];
    m' := PassPointers(m, k, args);
    TwoPointers(m', k, args);
    BufferStays(m, m', k, 16, out, DWORD);
    InputStays(m, m', k, in');
  }

  lemma TwoPointers(m: Mem, k: nat, ps: seq<nat>)
    requires |ps| == 2 && forall n :: 0 <= n < 2 ==> PointsTo(m, k + 8 * n, ps[n])
    ensures PointsTo(m, k, ps[0]) && PointsTo(m, k + 8, ps[1])
  {
    assert k == k + 8 * 0 && k + 8 == k + 8 * 1;
  }

  lemma InputStays(m: Mem, m': Mem, k: nat, in': nat)
    requires KeptOutside(m, m', k, 16) && BufferAt(m, in', DWORD) && Apart(in', DWORD, k, 16)
    ensures BufferAt(m', in', DWORD) && Elements(m', in', DWORD) == Elements(m, in', DWORD)
  {
    ElementsKept(m, m', k, 16, in', DWORD);
  }

  lemma AllSums(m: Mem, add: D.Add<Word>, in': nat, out: nat, v1Before: Vgpr, x: seq<nat>, m': Mem)
    requires BufferAt(m, in', DWORD) && BufferAt(m, out, DWORD) && IsAddF32(add)
    requires |x| == LANES && D.Total(x) <= 0x100_0000 && Elements(m, in', DWORD) == EncAll(Enc, x)
    requires m' == StoreAll(m, out, DWORD, D.Steps<Word>(add, 0, Elements(m, in', DWORD), v1Before, 7))
    ensures BufferAt(m', out, DWORD) && KeptOutside(m, m', out, 256)
    ensures Elements(m', out, DWORD) == EncAll(Enc, RunningSums(x))
    ensures Accepted(add, Elements(m, in', DWORD), Elements(m', out, DWORD))
  {
    FloatSums(m, add, in', out, v1Before, x, 0);
    SumsAgree(m, add, in', out, v1Before, x, m');
    VerdictYes(m, add, in', out, v1Before, x, m');
  }

  lemma SumsAgree(m: Mem, add: D.Add<Word>, in': nat, out: nat, v1Before: Vgpr, x: seq<nat>, m': Mem)
    requires BufferAt(m, in', DWORD) && BufferAt(m, out, DWORD) && IsAddF32(add) && BufferAt(m', out, DWORD)
    requires |x| == LANES && D.Total(x) <= 0x100_0000 && Elements(m, in', DWORD) == EncAll(Enc, x)
    requires m' == StoreAll(m, out, DWORD, D.Steps<Word>(add, 0, Elements(m, in', DWORD), v1Before, 7))
    ensures Elements(m', out, DWORD) == EncAll(Enc, RunningSums(x))
  {
    var r, sums := Elements(m', out, DWORD), RunningSums(x);
    forall i | 0 <= i < LANES
      ensures r[i] == Enc(sums[i])
    {
      FloatSums(m, add, in', out, v1Before, x, i);
    }
  }

  lemma VerdictYes(m: Mem, add: D.Add<Word>, in': nat, out: nat, v1Before: Vgpr, x: seq<nat>, m': Mem)
    requires BufferAt(m, in', DWORD) && BufferAt(m, out, DWORD) && IsAddF32(add) && BufferAt(m', out, DWORD)
    requires |x| == LANES && D.Total(x) <= 0x100_0000 && Elements(m, in', DWORD) == EncAll(Enc, x)
    requires m' == StoreAll(m, out, DWORD, D.Steps<Word>(add, 0, Elements(m, in', DWORD), v1Before, 7))
    ensures Accepted(add, Elements(m, in', DWORD), Elements(m', out, DWORD))
  {
    var r, input := Elements(m', out, DWORD), Elements(m, in', DWORD);
    forall i | 0 <= i < LANES
      ensures r[i] == D.Fold<Word>(add, 0, input, i / 64 * 64, i + 1)
    {
      KernelPassesVerify(m, add, in', out, v1Before, x, i);
    }
  }
}
