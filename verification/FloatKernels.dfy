/** The prefix-sum kernel and the two half-precision kernels, from their packed arguments to memory. */
module FloatKernels {
  import opened Bits
  import opened Memory
  import opened Wave
  import D = DppScan
  import H = HalfAdd
  import R = Rounding

  // ---- prefix sum ----

  /** dpp_reduce: load the inputs, scan them, store the sums. `add` is v_add_f32 on register contents;
      v1 enters the scan holding the low address half. */
  method PrefixSum(m: Mem, kernarg: nat, add: D.Add<Word>, ghost in': nat, ghost out: nat)
    returns (m': Mem)
    requires PointsTo(m, kernarg, in') && PointsTo(m, kernarg + 8, out)
    requires BufferAt(m, in', DWORD) && BufferAt(m, out, DWORD)
    ensures m' == StoreAll(m, out, DWORD,
                           D.Steps<Word>(add, 0, Elements(m, in', DWORD), AddU32(Dword(m, kernarg), Lshl(WORK_ITEM, 2)), 7))
  {
    var s0, s1, s2, s3 := Dword(m, kernarg), Dword(m, kernarg + 4), Dword(m, kernarg + 8), Dword(m, kernarg + 12);
    var v0: Vgpr := Lshl(WORK_ITEM, 2);
    Offsets(2, DWORD);
    var v3: Vgpr, v4: Vgpr := FormAddress(s2, s3, v0, out, DWORD);
    var v1: Vgpr, v2: Vgpr := FormAddress(s0, s1, v0, in', DWORD);
    v0 := LoadElements(m, v1, v2, DWORD, in');
    v1 := D.Scan<Word>(add, 0, v0, v1);
    m' := FlatStoreAll(m, v3, v4, DWORD, v1);
    FlatStoreIsElements(m, v3, v4, out, DWORD, v1, |v1|);
  }

  /** The general form, for any associative add with identity 0: output element i is the in-order sum of inputs 0 to
      i. FloatScan has the sums that v_add_f32 gives. */
  lemma PrefixSumEffect(m: Mem, add: D.Add<Word>, in': nat, out: nat, v1Before: Vgpr, i: nat)
    requires BufferAt(m, in', DWORD) && BufferAt(m, out, DWORD) && D.Monoid<Word>(add, 0) && i < LANES
    ensures var m' := StoreAll(m, out, DWORD, D.Steps<Word>(add, 0, Elements(m, in', DWORD), v1Before, 7));
            && BufferAt(m', out, DWORD)
            && Element(m', out, DWORD, i) == D.Fold<Word>(add, 0, Elements(m, in', DWORD), 0, i + 1)
            && forall k :: k in m && !(out <= k < out + 64 * DWORD) ==> k in m' && m'[k] == m[k]
  {
    TwoTo32();
    D.ScanIsPrefixSum<Word>(add, 0, Elements(m, in', DWORD), v1Before, i);
    StoreEffect(m, out, DWORD, D.Steps<Word>(add, 0, Elements(m, in', DWORD), v1Before, 7), i);
  }

  // ---- half-precision vector add ----

  const HALF := 2

  /** Elements of a buffer of finite halves. */
  predicate Halves(v: Vgpr) { forall i :: 0 <= i < LANES ==> v[i] < 0x1_0000 && H.IsFinite(v[i]) }

  /** The sums both kernels are to store. */
  function Sums(a: Vgpr, b: Vgpr, flush: bool): (r: Vgpr)
    requires Halves(a) && Halves(b)
  {
    seq(LANES, i requires 0 <= i < LANES => H.AddF16(a[i], b[i], flush))
  }

  function WidenAll(a: Vgpr, flush: bool): seq<R.Finite>
    requires Halves(a)
  {
    seq(LANES, i requires 0 <= i < LANES => H.CvtF32F16(a[i], flush))
  }

  function AddAll(a: seq<R.Finite>, b: seq<R.Finite>): seq<R.Finite>
    requires |a| == |b| == LANES
  {
    seq(LANES, i requires 0 <= i < LANES => H.AddF32(a[i], b[i]))
  }

  function NarrowAll(a: seq<R.Finite>, flush: bool): Vgpr
    requires |a| == LANES
  {
    seq(LANES, i requires 0 <= i < LANES => H.CvtF16F32(a[i], flush))
  }

  predicate HalfArgs(m: Mem, k: nat, in1: nat, in2: nat, out: nat) {
    && PointsTo(m, k, in1) && PointsTo(m, k + 8, in2) && PointsTo(m, k + 16, out)
    && BufferAt(m, in1, HALF) && BufferAt(m, in2, HALF) && BufferAt(m, out, HALF)
    && Halves(Elements(m, in1, HALF)) && Halves(Elements(m, in2, HALF))
  }

  /** What both fp16 kernels do before the arithmetic: load both operands and form the output address. */
  method LoadOperands(m: Mem, k: nat, ghost in1: nat, ghost in2: nat, ghost out: nat)
    returns (v0: Vgpr, v1: Vgpr, v2: Vgpr, v3: Vgpr)
    requires HalfArgs(m, k, in1, in2, out)
    ensures Addressed(v0, v1, out, HALF)
    ensures v2 == Elements(m, in2, HALF) && v3 == Elements(m, in1, HALF)
  {
    var s4, s5 := Dword(m, k + 16), Dword(m, k + 20);
    var s0, s1, s2, s3 := Dword(m, k), Dword(m, k + 4), Dword(m, k + 8), Dword(m, k + 12);
    v0 := Lshl(WORK_ITEM, 1);
    Offsets(1, HALF);
    v1, v2 := FormAddress(s0, s1, v0, in1, HALF);
    v3 := LoadElements(m, v1, v2, HALF, in1);
    v1, v2 := FormAddress(s2, s3, v0, in2, HALF);
    v2 := LoadElements(m, v1, v2, HALF, in2);
    v0, v1 := FormAddress(s4, s5, v0, out, HALF);
  }

  /** Lane by lane, what the output buffer holds is the f16 sum of the two elements loaded. */
  predicate LaneSums(m: Mem, m': Mem, flush: bool, in1: nat, in2: nat, out: nat)
    requires BufferAt(m, in1, HALF) && BufferAt(m, in2, HALF)
  {
    && BufferAt(m', out, HALF)
    && forall i :: 0 <= i < LANES ==>
         var a, b := Element(m, in1, HALF, i), Element(m, in2, HALF, i);
         && a < 0x1_0000 && b < 0x1_0000 && H.IsFinite(a) && H.IsFinite(b)
         && Element(m', out, HALF, i) == H.AddF16(a, b, flush)
  }

  lemma HalfSums(m: Mem, flush: bool, in1: nat, in2: nat, out: nat)
    requires BufferAt(m, in1, HALF) && BufferAt(m, in2, HALF) && BufferAt(m, out, HALF)
    requires Halves(Elements(m, in1, HALF)) && Halves(Elements(m, in2, HALF))
    ensures var m' := StoreAll(m, out, HALF, Sums(Elements(m, in1, HALF), Elements(m, in2, HALF), flush));
            LaneSums(m, m', flush, in1, in2, out) && KeptOutside(m, m', out, 128)
  {
    var sums: seq<nat> := Sums(Elements(m, in1, HALF), Elements(m, in2, HALF), flush);
    TwoTo32();
    forall i | 0 <= i < LANES
      ensures sums[i] == H.AddF16(Element(m, in1, HALF, i), Element(m, in2, HALF, i), flush) < 0x1_0000
      ensures Element(m, in1, HALF, i) == Elements(m, in1, HALF)[i] && Element(m, in2, HALF, i) == Elements(m, in2, HALF)[i]
    {}
    forall i | 0 <= i < LANES
      ensures BufferAt(StoreAll(m, out, HALF, sums), out, HALF)
      ensures Element(StoreAll(m, out, HALF, sums), out, HALF, i) == sums[i]
    {
      StoreEffect(m, out, HALF, sums, i);
    }
    StoreEffect(m, out, HALF, sums, 0);
  }

  /** fp16_native: one v_add_f16. */
  method NativeKernel(m: Mem, k: nat, flush: bool, ghost in1: nat, ghost in2: nat, ghost out: nat) returns (m': Mem)
    requires HalfArgs(m, k, in1, in2, out)
    ensures m' == StoreAll(m, out, HALF, Sums(Elements(m, in1, HALF), Elements(m, in2, HALF), flush))
    ensures LaneSums(m, m', flush, in1, in2, out) && KeptOutside(m, m', out, 128)
  {
    var v0: Vgpr, v1: Vgpr, v2: Vgpr, v3: Vgpr := LoadOperands(m, k, in1, in2, out);
    v3 := Sums(v3, v2, flush);
    m' := FlatStoreAll(m, v0, v1, HALF, v3);
    FlatStoreIsElements(m, v0, v1, out, HALF, v3, |v3|);
    HalfSums(m, flush, in1, in2, out);
  }

  /** fp16_storage: widen both operands, v_add_f32, narrow the sum. It leaves memory exactly as the
      native kernel does. */
  method StorageKernel(m: Mem, k: nat, flush: bool, ghost in1: nat, ghost in2: nat, ghost out: nat) returns (m': Mem)
    requires HalfArgs(m, k, in1, in2, out)
    ensures m' == StoreAll(m, out, HALF, Sums(Elements(m, in1, HALF), Elements(m, in2, HALF), flush))
    ensures LaneSums(m, m', flush, in1, in2, out) && KeptOutside(m, m', out, 128)
  {
    var v0: Vgpr, v1: Vgpr, v2: Vgpr, v3: Vgpr := LoadOperands(m, k, in1, in2, out);
    var wide3 := WidenAll(v3, flush);
    var wide2 := WidenAll(v2, flush);
    wide3 := AddAll(wide3, wide2);
    StorageLanes(v3, v2, flush);
    v3 := NarrowAll(wide3, flush);
    m' := FlatStoreAll(m, v0, v1, HALF, v3);
    FlatStoreIsElements(m, v0, v1, out, HALF, v3, |v3|);
    HalfSums(m, flush, in1, in2, out);
  }

  lemma StorageLanes(a: Vgpr, b: Vgpr, flush: bool)
    requires Halves(a) && Halves(b)
    ensures NarrowAll(AddAll(WidenAll(a, flush), WidenAll(b, flush)), flush) == Sums(a, b, flush)
  {
    forall i | 0 <= i < LANES
      ensures NarrowAll(AddAll(WidenAll(a, flush), WidenAll(b, flush)), flush)[i] == Sums(a, b, flush)[i]
    {
      H.StorageMatchesNative(a[i], b[i], flush);
    }
  }
}
