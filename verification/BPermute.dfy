/** The ds_bpermute kernel: gather input[index[i] mod 64] into output[i] across one wavefront. */
module BPermute {
  import opened Bits
  import opened Memory
  import opened Wave
  import Kernarg

  /** ds_bpermute_b32: lane i reads the data register of lane addr[i] / 4 mod 64. */
  function Permute(addr: Vgpr, data: Vgpr): Vgpr {
    seq(LANES, i requires 0 <= i < LANES => data[addr[i] / 4 % 64])
  }

  /** Three pointers at a kernel argument address: input, index, output. */
  predicate ArgsAt(m: Mem, k: nat, in': nat, index: nat, out: nat) {
    PointsTo(m, k, in') && PointsTo(m, k + 8, index) && PointsTo(m, k + 16, out)
  }

  /** The gathered values, as the host expects them. */
  function Gathered(m: Mem, in': nat, index: nat): (v: seq<nat>)
    requires BufferAt(m, in', DWORD) && BufferAt(m, index, DWORD)
    ensures |v| == LANES
    ensures forall i :: 0 <= i < LANES ==> v[i] < 0x1_0000_0000
  {
    TwoTo32();
    seq(LANES, i requires 0 <= i < LANES => Element(m, in', DWORD, Element(m, index, DWORD, i) % 64))
  }

  /** The kernel, register by register; s[0:1] enters as the kernel argument address. */
  method Kernel(m: Mem, kernarg: nat, ghost in': nat, ghost index: nat, ghost out: nat) returns (m': Mem)
    requires ArgsAt(m, kernarg, in', index, out)
    requires BufferAt(m, in', DWORD) && BufferAt(m, index, DWORD) && BufferAt(m, out, DWORD)
    ensures m' == StoreAll(m, out, DWORD, Gathered(m, in', index))
  {
    var v0: Vgpr := WORK_ITEM;
    var s4, s5 := Dword(m, kernarg + 16), Dword(m, kernarg + 20);
    var s0, s1, s2, s3 := Dword(m, kernarg), Dword(m, kernarg + 4), Dword(m, kernarg + 8), Dword(m, kernarg + 12);
    v0 := Lshl(v0, 2);
    Offsets(2, DWORD);
    var v1: Vgpr, v2: Vgpr := FormAddress(s2, s3, v0, index, DWORD);
    var v3: Vgpr, v4: Vgpr := FormAddress(s0, s1, v0, in', DWORD);
    v1 := LoadElements(m, v1, v2, DWORD, index);
    v2 := LoadElements(m, v3, v4, DWORD, in');
    GatherLanes(m, in', index, v1, v2);
    v1 := Lshl(v1, 2);
    v1 := Permute(v1, v2);
    v3, v4 := FormAddress(s4, s5, v0, out, DWORD);
    m' := FlatStoreAll(m, v3, v4, DWORD, v1);
    FlatStoreIsElements(m, v3, v4, out, DWORD, v1, |v1|);
  }

  lemma GatherLanes(m: Mem, in': nat, index: nat, idx: Vgpr, data: Vgpr)
    requires BufferAt(m, in', DWORD) && BufferAt(m, index, DWORD)
    requires idx == Elements(m, index, DWORD) && data == Elements(m, in', DWORD)
    ensures Permute(Lshl(idx, 2), data) == Gathered(m, in', index)
  {
    assert Pow2(2) == 4;
    forall i | 0 <= i < LANES
      ensures Permute(Lshl(idx, 2), data)[i] == Gathered(m, in', index)[i]
    {
      ShiftedLane(idx[i]);
    }
  }

  /** Shifting an index left by two drops its top bits, but not its value modulo 64. */
  lemma ShiftedLane(x: Word)
    ensures x * 4 % 0x1_0000_0000 / 4 % 64 == x % 64
  {
    var q := x / 0x4000_0000;
    var r := x % 0x4000_0000;
    assert x * 4 == q * 0x1_0000_0000 + r * 4;
    assert x * 4 % 0x1_0000_0000 == r * 4;
    assert x == 64 * (q * 0x100_0000) + r;
  }

  // ---- end to end ----

  /** Three pointers packed by the host are the ones the kernel loads. */
  lemma PackedArgs(m: Mem, k: nat, buf: seq<Byte>, ps: seq<nat>, block: seq<Byte>)
    requires |ps| == 3 && forall n :: 0 <= n < 3 ==> ps[n] < Pow2(8 * Kernarg.PTR_SIZE)
    requires Kernarg.EndOf(0, Kernarg.Pointers(ps)) <= |buf|
    requires block == Kernarg.Pack(buf, 0, Kernarg.Pointers(ps)) && Holds(m, k, block)
    ensures ArgsAt(m, k, ps[0], ps[1], ps[2])
  {
    forall n | 0 <= n < 3
      ensures PointsTo(m, k + 8 * n, ps[n])
    {
      PointerAt(m, k, buf, ps, n, block);
    }
    ThreePointers(m, k, ps);
  }

  lemma ThreePointers(m: Mem, k: nat, ps: seq<nat>)
    requires |ps| == 3 && forall n :: 0 <= n < 3 ==> PointsTo(m, k + 8 * n, ps[n])
    ensures ArgsAt(m, k, ps[0], ps[1], ps[2])
  {
    assert k == k + 8 * 0 && k + 8 == k + 8 * 1 && k + 16 == k + 8 * 2;
  }

  /** The kernel's effect: element i of the output buffer is the input element its index names modulo 64,
      and nothing outside the output buffer changes. */
  lemma GatherEffect(m: Mem, in': nat, index: nat, out: nat, i: nat)
    requires BufferAt(m, in', DWORD) && BufferAt(m, index, DWORD) && BufferAt(m, out, DWORD) && i < LANES
    ensures var m' := StoreAll(m, out, DWORD, Gathered(m, in', index));
            && BufferAt(m', out, DWORD)
            && Element(m', out, DWORD, i) == Element(m, in', DWORD, Element(m, index, DWORD, i) % 64)
            && forall k :: k in m && !(out <= k < out + 64 * DWORD) ==> k in m' && m'[k] == m[k]
  {
    TwoTo32();
    StoreEffect(m, out, DWORD, Gathered(m, in', index), i);
  }

  /** Running the kernel again on its own output, with indices that invert the first ones, restores the
      input: out2[i] == in[i]. */
  lemma InverseRestores(m: Mem, in': nat, index: nat, out: nat, m1: Mem, index2: nat, out2: nat, i: nat)
    requires BufferAt(m, in', DWORD) && BufferAt(m, index, DWORD) && BufferAt(m, out, DWORD) && i < LANES
    requires m1 == StoreAll(m, out, DWORD, Gathered(m, in', index))
    requires BufferAt(m1, index2, DWORD) && BufferAt(m1, out2, DWORD) && BufferAt(m1, out, DWORD)
    requires Element(m, index, DWORD, Element(m1, index2, DWORD, i) % 64) % 64 == i
    ensures var m2 := StoreAll(m1, out2, DWORD, Gathered(m1, out, index2));
            BufferAt(m2, out2, DWORD) && Element(m2, out2, DWORD, i) == Element(m, in', DWORD, i)
  {
    var j := Element(m1, index2, DWORD, i) % 64;
    GatherEffect(m1, out, index2, out2, i);
    GatherEffect(m, in', index, out, j);
  }

  /** A dispatch from the host's three buffer arguments to memory; k is where the kernel argument block is put. */
  method Dispatch(m: Mem, k: nat, in': nat, index: nat, out: nat) returns (m': Mem)
    requires BufferAt(m, in', DWORD) && BufferAt(m, index, DWORD) && BufferAt(m, out, DWORD)
    requires Apart(in', DWORD, k, 24) && Apart(index, DWORD, k, 24)
    ensures BufferAt(m', out, DWORD)
    ensures forall i :: 0 <= i < LANES ==>
              Element(m', out, DWORD, i) == Element(m, in', DWORD, Element(m, index, DWORD, i) % 64)
    ensures forall a :: a in m ==> a in m' && (k <= a < k + 24 || out <= a < out + 256 || m'[a] == m[a])
  {
    var m1 := PassBuffers(m, k, in', index, out);
    m' := Kernel(m1, k, in', index, out);
    GatherAll(m1, in', index, out, m');
    GatheredKept(m, m1, in', index);
  }

  /** What is in place when the kernel starts. */
  method PassBuffers(m: Mem, k: nat, in': nat, index: nat, out: nat) returns (m': Mem)
    requires BufferAt(m, in', DWORD) && BufferAt(m, index, DWORD) && BufferAt(m, out, DWORD)
    requires Apart(in', DWORD, k, 24) && Apart(index, DWORD, k, 24)
    ensures ArgsAt(m', k, in', index, out) && KeptOutside(m, m', k, 24) && BufferAt(m', out, DWORD)
    ensures SameBuffer(m, m', in', DWORD) && SameBuffer(m, m', index, DWORD)
  {
    AddressFits(m, in', DWORD);
    AddressFits(m, index, DWORD);
    AddressFits(m, out, DWORD);
    var args := [in', index, out];
    m' := PassPointers(m, k, args);
    ThreePointers(m', k, args);
    BufferStays(m, m', k, 24, out, DWORD);
    ElementsKept(m, m', k, 24, in', DWORD);
    ElementsKept(m, m', k, 24, index, DWORD);
  }

  lemma GatherAll(m: Mem, in': nat, index: nat, out: nat, m': Mem)
    requires BufferAt(m, in', DWORD) && BufferAt(m, index, DWORD) && BufferAt(m, out, DWORD)
    requires m' == StoreAll(m, out, DWORD, Gathered(m, in', index))
    ensures BufferAt(m', out, DWORD) && KeptOutside(m, m', out, 256)
    ensures forall i :: 0 <= i < LANES ==> Element(m', out, DWORD, i) == Gathered(m, in', index)[i]
  {
    GatherEffect(m, in', index, out, 0);
    forall i | 0 <= i < LANES
      ensures Element(m', out, DWORD, i) == Gathered(m, in', index)[i]
    {
      GatherEffect(m, in', index, out, i);
    }
  }

  lemma GatheredKept(m: Mem, m': Mem, in': nat, index: nat)
    requires SameBuffer(m, m', in', DWORD) && SameBuffer(m, m', index, DWORD)
    ensures Gathered(m, in', index) == Gathered(m', in', index)
  {}

  /** Two dispatches, the second on the first one's output: with indices that invert the first ones it restores
      the input. */
  method DispatchTwice(m: Mem, k: nat, in': nat, index: nat, out: nat, k2: nat, index2: nat, out2: nat)
    returns (m': Mem)
    requires BufferAt(m, in', DWORD) && BufferAt(m, index, DWORD) && BufferAt(m, out, DWORD)
    requires BufferAt(m, index2, DWORD) && BufferAt(m, out2, DWORD)
    requires Apart(in', DWORD, k, 24) && Apart(index, DWORD, k, 24)
    requires Apart(index2, DWORD, k, 24) && Apart(index2, DWORD, out, 256)
    requires Apart(out, DWORD, k2, 24) && Apart(index2, DWORD, k2, 24)
    requires forall i :: 0 <= i < LANES ==>
               Element(m, index, DWORD, Element(m, index2, DWORD, i) % 64) % 64 == i
    ensures BufferAt(m', out2, DWORD)
    ensures forall i :: 0 <= i < LANES ==> Element(m', out2, DWORD, i) == Element(m, in', DWORD, i)
  {
    var m1 := Dispatch(m, k, in', index, out);
    SecondIndices(m, m1, k, out, index2);
    m' := Dispatch(m1, k2, out, index2, out2);
    forall i | 0 <= i < LANES
      ensures Element(m', out2, DWORD, i) == Element(m, in', DWORD, i)
    {
      var j := Element(m, index2, DWORD, i) % 64;
      assert Element(m', out2, DWORD, i) == Element(m1, out, DWORD, j);
    }
  }

  /** The first dispatch leaves the second one's indices alone. */
  lemma SecondIndices(m: Mem, m1: Mem, k: nat, out: nat, index2: nat)
    requires BufferAt(m, index2, DWORD) && Apart(index2, DWORD, k, 24) && Apart(index2, DWORD, out, 256)
    requires forall a :: a in m ==> a in m1 && (k <= a < k + 24 || out <= a < out + 256 || m1[a] == m[a])
    ensures SameBuffer(m, m1, index2, DWORD)
  {
    SameBytesSameBuffer(m, m1, index2, DWORD);
  }
}
