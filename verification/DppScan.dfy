/** The DPP prefix sum of one wavefront: seven lockstep adds across 64 lanes. Instruction meanings are
    those of the AMD GCN3 instruction set; all lanes are active. */
module DppScan {
  import opened Bits

  const LANES := 64
  const ROW := 16

  // ---- the instruction ----

  datatype Ctrl = RowShr(n: nat) | RowBcast15 | RowBcast31

  /** The lane whose value src0 delivers to a lane, or -1 when there is none. */
  function Source(ctrl: Ctrl, lane: nat): (j: int)
    ensures -1 <= j <= lane
  {
    match ctrl
    case RowShr(n) => if lane % 16 >= n then lane - n else -1
    case RowBcast15 => if lane >= ROW then lane / 16 * 16 - 1 else -1
    case RowBcast31 => if lane >= 32 then 31 else -1
  }

  predicate MaskBit(mask: nat, k: nat) { mask / Pow2(k) % 2 == 1 }

  /** Rows are 16 lanes, banks are the 4-lane quarters of each row. */
  predicate Enabled(lane: nat, rowMask: nat, bankMask: nat) {
    MaskBit(rowMask, lane / 16) && MaskBit(bankMask, lane % 16 / 4)
  }

  type Add<!T> = (T, T) -> T

  /** v_add_f32 dst, src0, src1 with a DPP control, one lane: a lane that is masked off, or has no source
      and no bound_ctrl, keeps its old value; with bound_ctrl a missing source reads zero. */
  function DppLane<T>(f: Add<T>, zero: T, dst: seq<T>, src0: seq<T>, src1: seq<T>,
                      ctrl: Ctrl, rowMask: nat, bankMask: nat, boundCtrl: bool, i: nat): T
    requires |dst| == |src0| == |src1| == LANES && i < LANES
  {
    var j := Source(ctrl, i);
    if !Enabled(i, rowMask, bankMask) then dst[i]
    else if j >= 0 then f(src0[j], src1[i])
    else if boundCtrl then f(zero, src1[i])
    else dst[i]
  }

  /** All lanes read the registers as they were before the instruction. */
  function DppAdd<T>(f: Add<T>, zero: T, dst: seq<T>, src0: seq<T>, src1: seq<T>,
                     ctrl: Ctrl, rowMask: nat, bankMask: nat, boundCtrl: bool): (r: seq<T>)
    requires |dst| == |src0| == |src1| == LANES
    ensures |r| == LANES
    ensures forall i :: 0 <= i < LANES ==>
              r[i] == DppLane(f, zero, dst, src0, src1, ctrl, rowMask, bankMask, boundCtrl, i)
  {
    seq(LANES, i requires 0 <= i < LANES => DppLane(f, zero, dst, src0, src1, ctrl, rowMask, bankMask, boundCtrl, i))
  }

  /** The n-th of the seven adds. */
  function Step<T>(f: Add<T>, zero: T, v0: seq<T>, v: seq<T>, n: nat): (r: seq<T>)
    requires |v0| == |v| == LANES && 1 <= n <= 7
    ensures |r| == LANES
  {
    match n
    case 1 => DppAdd(f, zero, v, v0, v0, RowShr(1), 0xf, 0xf, true)
    case 2 => DppAdd(f, zero, v, v0, v, RowShr(2), 0xf, 0xf, true)
    case 3 => DppAdd(f, zero, v, v0, v, RowShr(3), 0xf, 0xf, true)
    case 4 => DppAdd(f, zero, v, v, v, RowShr(4), 0xf, 0xe, false)
    case 5 => DppAdd(f, zero, v, v, v, RowShr(8), 0xf, 0xc, false)
    case 6 => DppAdd(f, zero, v, v, v, RowBcast15, 0xa, 0xf, false)
    case _ => DppAdd(f, zero, v, v, v, RowBcast31, 0xc, 0xf, false)
  }

  /** Register v1 after the first n of the seven adds. */
  function Steps<T>(f: Add<T>, zero: T, v0: seq<T>, v1: seq<T>, n: nat): (r: seq<T>)
    requires |v0| == |v1| == LANES && n <= 7
    ensures |r| == LANES
    decreases n
  {
    if n == 0 then v1 else Step(f, zero, v0, Steps(f, zero, v0, v1, n - 1), n)
  }

  /** The adds of the kernel, one after the other on register v1; v1 starts with whatever it holds. */
  method Scan<T>(f: Add<T>, zero: T, v0: seq<T>, junk: seq<T>) returns (v1: seq<T>)
    requires |v0| == |junk| == LANES
    ensures v1 == Steps(f, zero, v0, junk, 7)
  {
    v1 := junk;
    v1 := DppAdd(f, zero, v1, v0, v0, RowShr(1), 0xf, 0xf, true);
    v1 := DppAdd(f, zero, v1, v0, v1, RowShr(2), 0xf, 0xf, true);
    v1 := DppAdd(f, zero, v1, v0, v1, RowShr(3), 0xf, 0xf, true);
    assert v1 == Steps(f, zero, v0, junk, 3) by {
      assert Steps(f, zero, v0, junk, 1) == DppAdd(f, zero, junk, v0, v0, RowShr(1), 0xf, 0xf, true);
    }
    v1 := DppAdd(f, zero, v1, v1, v1, RowShr(4), 0xf, 0xe, false);
    v1 := DppAdd(f, zero, v1, v1, v1, RowShr(8), 0xf, 0xc, false);
    assert v1 == Steps(f, zero, v0, junk, 5);
    v1 := DppAdd(f, zero, v1, v1, v1, RowBcast15, 0xa, 0xf, false);
    v1 := DppAdd(f, zero, v1, v1, v1, RowBcast31, 0xc, 0xf, false);
  }

  // ---- the sequential reference ----

  /** s[lo] + ... + s[hi-1], added from the left to zero. */
  function Fold<T>(f: Add<T>, zero: T, s: seq<T>, lo: nat, hi: nat): T
    requires lo <= hi <= |s|
  {
    if lo == hi then zero else f(Fold(f, zero, s, lo, hi - 1), s[hi - 1])
  }

  /** The host's check: a running sum, restarted every 64 elements, compared element by element. */
  method Verify<T(==)>(f: Add<T>, zero: T, input: seq<T>, out: seq<T>) returns (ok: bool)
    requires |input| == |out|
    ensures ok <==> forall i :: 0 <= i < |out| ==> out[i] == Fold(f, zero, input, i / 64 * 64, i + 1)
  {
    ok := true;
    var expected := zero;
    for i := 0 to |input|
      invariant i % 64 != 0 ==> expected == Fold(f, zero, input, (i - 1) / 64 * 64, i)
      invariant ok <==> forall k :: 0 <= k < i ==> out[k] == Fold(f, zero, input, k / 64 * 64, k + 1)
    {
      if i % 64 == 0 { expected := zero; }
      assert expected == Fold(f, zero, input, i / 64 * 64, i);
      expected := f(expected, input[i]);
      if expected != out[i] { ok := false; }
    }
  }

  ghost predicate Monoid<T(!new)>(f: Add<T>, zero: T) {
    && (forall x :: f(zero, x) == x && f(x, zero) == x)
    && (forall x, y, z :: f(f(x, y), z) == f(x, f(y, z)))
  }

  lemma {:induction false} FoldSplit<T(!new)>(f: Add<T>, zero: T, s: seq<T>, lo: nat, mid: nat, hi: nat)
    requires Monoid(f, zero) && lo <= mid <= hi <= |s|
    ensures Fold(f, zero, s, lo, hi) == f(Fold(f, zero, s, lo, mid), Fold(f, zero, s, mid, hi))
    decreases hi
  {
    if mid < hi {
      FoldSplit(f, zero, s, lo, mid, hi - 1);
    }
  }

  // ---- windows ----

  /** The first element of the window that lane i of v1 sums after n steps. */
  function Lo(n: nat, i: nat): (lo: nat)
    requires 1 <= n <= 7 && i < LANES
    ensures lo <= i
  {
    match n
    case 1 => RowWindow(i, 2)
    case 2 => RowWindow(i, 3)
    case 3 => RowWindow(i, 4)
    case 4 => RowWindow(i, 8)
    case 5 => RowWindow(i, 16)
    case 6 => i / 32 * 32
    case _ => 0
  }

  /** The last w lanes up to i, cut off at the start of the row. */
  function RowWindow(i: nat, w: nat): (lo: nat)
    requires w > 0
    ensures lo <= i
  {
    if i % 16 >= w then i + 1 - w else i - i % 16
  }

  ghost predicate Windows<T>(f: Add<T>, zero: T, v0: seq<T>, v1: seq<T>, n: nat) {
    && |v0| == |v1| == LANES && 1 <= n <= 7
    && forall i {:trigger v1[i]} :: 0 <= i < LANES ==> v1[i] == Fold(f, zero, v0, Lo(n, i), i + 1)
  }

  ghost predicate RowWindows<T>(f: Add<T>, zero: T, v0: seq<T>, v1: seq<T>, w: nat) {
    && |v0| == |v1| == LANES && w > 0
    && forall i {:trigger v1[i]} :: 0 <= i < LANES ==> v1[i] == Fold(f, zero, v0, RowWindow(i, w), i + 1)
  }

  /** The masks used by the kernel, lane by lane. */
  lemma Masks(i: nat)
    requires i < LANES
    ensures Enabled(i, 0xf, 0xf)
    ensures Enabled(i, 0xf, 0xe) <==> i % 16 >= 4
    ensures Enabled(i, 0xf, 0xc) <==> i % 16 >= 8
    ensures Enabled(i, 0xa, 0xf) <==> i / 16 % 2 == 1
    ensures Enabled(i, 0xc, 0xf) <==> i >= 32
  {
    assert Pow2(0) == 1 && Pow2(1) == 2 && Pow2(2) == 4 && Pow2(3) == 8;
    assert i / 16 == 0 || i / 16 == 1 || i / 16 == 2 || i / 16 == 3;
    assert i % 16 / 4 == 0 || i % 16 / 4 == 1 || i % 16 / 4 == 2 || i % 16 / 4 == 3;
  }

  /** Adding the value w lanes below extends every window of w lanes by as many lanes as that lower
      window holds: doubling, for any width. */
  lemma WindowDoubling<T(!new)>(f: Add<T>, zero: T, v0: seq<T>, v: seq<T>, w: nat, r: seq<T>)
    requires Monoid(f, zero) && RowWindows(f, zero, v0, v, w) && w <= 16 && |r| == LANES
    requires forall i {:trigger r[i]} :: 0 <= i < LANES ==> r[i] == if i % 16 >= w then f(v[i - w], v[i]) else v[i]
    ensures RowWindows(f, zero, v0, r, 2 * w)
  {
    forall i {:trigger r[i]} | 0 <= i < LANES
      ensures r[i] == Fold(f, zero, v0, RowWindow(i, 2 * w), i + 1)
    {
      if i % 16 >= w {
        assert v[i - w] == Fold(f, zero, v0, RowWindow(i - w, w), i - w + 1);
        SameRow(i, w);
        FoldSplit(f, zero, v0, RowWindow(i, 2 * w), i - w + 1, i + 1);
      }
    }
  }

  lemma SameRow(i: nat, w: nat)
    requires w <= i % 16
    ensures (i - w) % 16 == i % 16 - w
    ensures w > 0 ==> RowWindow(i - w, w) == RowWindow(i, 2 * w)
  {
    DivUnique(i - w, 16, i / 16, i % 16 - w);
  }

  /** Adding the element w lanes below extends every window of w lanes by one. */
  lemma WindowExtension<T(!new)>(f: Add<T>, zero: T, v0: seq<T>, v: seq<T>, w: nat, r: seq<T>)
    requires Monoid(f, zero) && RowWindows(f, zero, v0, v, w) && |r| == LANES
    requires forall i {:trigger r[i]} :: 0 <= i < LANES ==> r[i] == if i % 16 >= w then f(v0[i - w], v[i]) else f(zero, v[i])
    ensures RowWindows(f, zero, v0, r, w + 1)
  {
    forall i {:trigger r[i]} | 0 <= i < LANES
      ensures r[i] == Fold(f, zero, v0, RowWindow(i, w + 1), i + 1)
    {
      if i % 16 >= w {
        assert RowWindow(i, w + 1) == i - w;
        FoldSplit(f, zero, v0, i - w, i - w + 1, i + 1);
        assert Fold(f, zero, v0, i - w, i - w + 1) == f(Fold(f, zero, v0, i - w, i - w), v0[i - w]) == v0[i - w];
      }
    }
  }

  /** One add with row_shr:w and bound_ctrl extends the windows. */
  lemma ShiftExtends<T(!new)>(f: Add<T>, zero: T, v0: seq<T>, dst: seq<T>, v: seq<T>, w: nat)
    requires Monoid(f, zero) && RowWindows(f, zero, v0, v, w) && |dst| == LANES
    ensures RowWindows(f, zero, v0, DppAdd(f, zero, dst, v0, v, RowShr(w), 0xf, 0xf, true), w + 1)
  {
    var r := DppAdd(f, zero, dst, v0, v, RowShr(w), 0xf, 0xf, true);
    forall i {:trigger r[i]} | 0 <= i < LANES
      ensures r[i] == if i % 16 >= w then f(v0[i - w], v[i]) else f(zero, v[i])
    { Masks(i); }
    WindowExtension(f, zero, v0, v, w, r);
  }

  /** One add with row_shr:4 or row_shr:8, under the bank mask of that step, doubles the windows. */
  lemma ShiftDoubles<T(!new)>(f: Add<T>, zero: T, v0: seq<T>, v: seq<T>, w: nat, bankMask: nat)
    requires Monoid(f, zero) && RowWindows(f, zero, v0, v, w)
    requires (w == 4 && bankMask == 0xe) || (w == 8 && bankMask == 0xc)
    ensures RowWindows(f, zero, v0, DppAdd(f, zero, v, v, v, RowShr(w), 0xf, bankMask, false), 2 * w)
  {
    var r := DppAdd(f, zero, v, v, v, RowShr(w), 0xf, bankMask, false);
    forall i {:trigger r[i]} | 0 <= i < LANES
      ensures r[i] == if i % 16 >= w then f(v[i - w], v[i]) else v[i]
    {
      Masks(i);
      if w == 4 { assert Enabled(i, 0xf, bankMask) == Enabled(i, 0xf, 0xe); }
      else { assert Enabled(i, 0xf, bankMask) == Enabled(i, 0xf, 0xc); }
    }
    WindowDoubling(f, zero, v0, v, w, r);
  }

  lemma SingleLanes<T(!new)>(f: Add<T>, zero: T, v0: seq<T>)
    requires Monoid(f, zero) && |v0| == LANES
    ensures RowWindows(f, zero, v0, v0, 1)
  {
    forall i {:trigger v0[i]} | 0 <= i < LANES
      ensures v0[i] == Fold(f, zero, v0, RowWindow(i, 1), i + 1)
    {
      assert Fold(f, zero, v0, i, i + 1) == f(Fold(f, zero, v0, i, i), v0[i]) == v0[i];
    }
  }

  /** After every one of the seven steps, each lane sums exactly its window. */
  lemma {:induction false} StepWindows<T(!new)>(f: Add<T>, zero: T, v0: seq<T>, junk: seq<T>, n: nat)
    requires Monoid(f, zero) && |v0| == |junk| == LANES && 1 <= n <= 7
    ensures Windows(f, zero, v0, Steps(f, zero, v0, junk, n), n)
    decreases n
  {
    if n > 1 { StepWindows(f, zero, v0, junk, n - 1); }
    StepWindow(f, zero, v0, Steps(f, zero, v0, junk, n - 1), n);
  }

  lemma StepWindow<T(!new)>(f: Add<T>, zero: T, v0: seq<T>, v: seq<T>, n: nat)
    requires Monoid(f, zero) && |v0| == |v| == LANES && 1 <= n <= 7
    requires n > 1 ==> Windows(f, zero, v0, v, n - 1)
    ensures Windows(f, zero, v0, Step(f, zero, v0, v, n), n)
  {
    match n
    case 1 =>
      SingleLanes(f, zero, v0);
      ShiftExtends(f, zero, v0, v, v0, 1);
    case 2 => ShiftExtends(f, zero, v0, v, v, 2);
    case 3 => ShiftExtends(f, zero, v0, v, v, 3);
    case 4 => ShiftDoubles(f, zero, v0, v, 4, 0xe);
    case 5 => ShiftDoubles(f, zero, v0, v, 8, 0xc);
    case 6 => RowsJoin(f, zero, v0, v);
    case _ => HalvesJoin(f, zero, v0, v);
  }

  /** row_bcast:15 adds the sum of each even row to the row after it. */
  lemma RowsJoin<T(!new)>(f: Add<T>, zero: T, v0: seq<T>, v: seq<T>)
    requires Monoid(f, zero) && Windows(f, zero, v0, v, 5)
    ensures Windows(f, zero, v0, DppAdd(f, zero, v, v, v, RowBcast15, 0xa, 0xf, false), 6)
  {
    var r := DppAdd(f, zero, v, v, v, RowBcast15, 0xa, 0xf, false);
    forall i {:trigger r[i]} | 0 <= i < LANES
      ensures r[i] == Fold(f, zero, v0, Lo(6, i), i + 1)
    {
      Masks(i);
      assert v[i] == Fold(f, zero, v0, Lo(5, i), i + 1);
      if i / 16 % 2 == 1 {
        assert Enabled(i, 0xa, 0xf);
        var j := i / 16 * 16 - 1;
        PreviousRow(i);
        assert v[j] == Fold(f, zero, v0, Lo(6, i), j + 1);
        FoldSplit(f, zero, v0, Lo(6, i), j + 1, i + 1);
      }
    }
  }

  /** The broadcast lane of an odd row ends the window of the even row before it. */
  lemma PreviousRow(i: nat)
    requires i < LANES && i / 16 % 2 == 1
    ensures Source(RowBcast15, i) == i / 16 * 16 - 1 && Lo(5, i) == i / 16 * 16
    ensures Lo(5, i / 16 * 16 - 1) == Lo(6, i)
  {}

  /** row_bcast:31 adds the sum of the lower half to the upper half. */
  lemma HalvesJoin<T(!new)>(f: Add<T>, zero: T, v0: seq<T>, v: seq<T>)
    requires Monoid(f, zero) && Windows(f, zero, v0, v, 6)
    ensures Windows(f, zero, v0, DppAdd(f, zero, v, v, v, RowBcast31, 0xc, 0xf, false), 7)
  {
    var r := DppAdd(f, zero, v, v, v, RowBcast31, 0xc, 0xf, false);
    forall i {:trigger r[i]} | 0 <= i < LANES
      ensures r[i] == Fold(f, zero, v0, Lo(7, i), i + 1)
    {
      Masks(i);
      assert v[i] == Fold(f, zero, v0, Lo(6, i), i + 1);
      if i >= 32 {
        assert Enabled(i, 0xc, 0xf);
        assert v[31] == Fold(f, zero, v0, 0, 32);
        FoldSplit(f, zero, v0, 0, 32, i + 1);
      }
    }
  }

  /** For every monoid, commutative or not, and every input: the seven adds leave in each lane the
      in-order sum of the lanes up to it, whatever v1 held before. */
  lemma ScanIsPrefixSum<T(!new)>(f: Add<T>, zero: T, v0: seq<T>, junk: seq<T>, i: nat)
    requires Monoid(f, zero) && |v0| == |junk| == LANES && i < LANES
    ensures Steps(f, zero, v0, junk, 7)[i] == Fold(f, zero, v0, 0, i + 1)
  {
    StepWindows(f, zero, v0, junk, 7);
  }

  // ---- whole numbers ----

  function PlusNat(x: nat, y: nat): nat { x + y }

  function Total(s: seq<nat>): nat { Fold<nat>(PlusNat, 0, s, 0, |s|) }

  lemma {:induction false} FoldBelowTotal(s: seq<nat>, lo: nat, hi: nat)
    requires lo <= hi <= |s|
    ensures Fold<nat>(PlusNat, 0, s, lo, hi) <= Total(s)
  {
    FoldSplit<nat>(PlusNat, 0, s, 0, hi, |s|);
    FoldSplit<nat>(PlusNat, 0, s, 0, lo, hi);
  }

  predicate Bounded(r: seq<nat>, m: nat) { forall i :: 0 <= i < |r| ==> r[i] <= m }

  /** No register of any step exceeds the total of the inputs. */
  lemma StepsBounded(v0: seq<nat>, junk: seq<nat>, n: nat)
    requires |v0| == |junk| == LANES && 1 <= n <= 7
    ensures Bounded(Steps<nat>(PlusNat, 0, v0, junk, n), Total(v0))
  {
    var r := Steps<nat>(PlusNat, 0, v0, junk, n);
    StepWindows<nat>(PlusNat, 0, v0, junk, n);
    forall i | 0 <= i < LANES
      ensures r[i] <= Total(v0)
    {
      FoldBelowTotal(v0, Lo(n, i), i + 1);
    }
  }
}
