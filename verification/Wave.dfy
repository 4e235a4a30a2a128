/** What the gfx8 kernels share: 32-bit lane registers of one 64-lane wavefront, 64-bit addresses formed
    from two 32-bit adds and a carry, and flat loads and stores. The meanings are those of the AMD GCN3
    instruction set, with all lanes active; lane i holds work-item i. */
module Wave {
  import opened Bits
  import opened Memory
  import Kernarg

  const LANES := 64

  type Vgpr = v: seq<Word> | |v| == LANES witness seq(LANES, _ => 0)
  type Vcc = c: seq<bool> | |c| == LANES witness seq(LANES, _ => false)

  const WORK_ITEM: Vgpr := seq(LANES, i requires 0 <= i < LANES => i)

  function Address64(lo: Word, hi: Word): nat { hi * 0x1_0000_0000 + lo }

  /** v_lshlrev_b32 */
  function Lshl(v: Vgpr, n: nat): Vgpr { seq(LANES, i requires 0 <= i < LANES => v[i] * Pow2(n) % 0x1_0000_0000) }

  /** v_mov_b32 from a scalar register */
  function Splat(s: Word): Vgpr { seq(LANES, i => s) }

  /** v_add_u32: sum and carry out */
  function AddU32(s: Word, v: Vgpr): Vgpr { seq(LANES, i requires 0 <= i < LANES => (s + v[i]) % 0x1_0000_0000) }
  function AddCarry(s: Word, v: Vgpr): Vcc { seq(LANES, i requires 0 <= i < LANES => s + v[i] >= 0x1_0000_0000) }

  function Carry(b: bool): nat { if b then 1 else 0 }

  /** v_addc_u32 dst, vcc, v, 0, vcc: sum and carry out */
  function AddcU32(v: Vgpr, c: Vcc): Vgpr {
    seq(LANES, i requires 0 <= i < LANES => (Carry(c[i]) + v[i]) % 0x1_0000_0000)
  }
  function AddcCarry(v: Vgpr, c: Vcc): Vcc {
    seq(LANES, i requires 0 <= i < LANES => Carry(c[i]) + v[i] >= 0x1_0000_0000)
  }

  /** The three instructions that form a lane's address add the lane offset to the 64-bit base. */
  lemma AddressFormed(lo: Word, hi: Word, off: Vgpr, i: nat)
    requires i < LANES
    ensures Address64(AddU32(lo, off)[i], AddcU32(Splat(hi), AddCarry(lo, off))[i])
         == (Address64(lo, hi) + off[i]) % 0x1_0000_0000_0000_0000
  {
    var sum := lo + off[i];
    var c := if sum >= 0x1_0000_0000 then 1 else 0;
    assert AddU32(lo, off)[i] == sum - c * 0x1_0000_0000;
    assert AddcU32(Splat(hi), AddCarry(lo, off))[i] == (hi + c) % 0x1_0000_0000;
  }

  lemma AddressNoWrap(lo: Word, hi: Word, off: Vgpr, i: nat)
    requires i < LANES && Address64(lo, hi) + off[i] < 0x1_0000_0000_0000_0000
    ensures Address64(AddU32(lo, off)[i], AddcU32(Splat(hi), AddCarry(lo, off))[i]) == Address64(lo, hi) + off[i]
  {
    AddressFormed(lo, hi, off, i);
    NoWrap64(Address64(lo, hi) + off[i]);
  }

  lemma NoWrap64(x: nat)
    requires x < 0x1_0000_0000_0000_0000
    ensures x % 0x1_0000_0000_0000_0000 == x
  {}

  /** One element of `size` bytes for every lane, at base, without wrapping around the address space. */
  predicate BufferAt(m: Mem, base: nat, size: nat) {
    base + 64 * size <= 0x1_0000_0000_0000_0000 && Mapped(m, base, 64 * size)
  }

  function Element(m: Mem, base: nat, size: nat, i: nat): nat
    requires BufferAt(m, base, size) && i < LANES
  {
    ElementMapped(m, base, size, i);
    Load(m, base + i * size, size)
  }

  lemma ElementMapped(m: Mem, base: nat, size: nat, i: nat)
    requires BufferAt(m, base, size) && i < LANES
    ensures Mapped(m, base + i * size, size)
  {
    MulStep(i, 64, size);
  }

  // ---- flat stores ----

  /** Element i of values at base + i * size, for the first n lanes. */
  function StoreElements(m: Mem, base: nat, size: nat, values: seq<nat>, n: nat): Mem
    requires n <= |values|
  {
    if n == 0 then m
    else Store(StoreElements(m, base, size, values, n - 1), base + (n - 1) * size, size, values[n - 1])
  }

  /** flat_store: every lane stores at its own address. */
  function FlatStore(m: Mem, lo: Vgpr, hi: Vgpr, size: nat, values: seq<nat>, n: nat): Mem
    requires n <= |values| && n <= LANES
  {
    if n == 0 then m
    else Store(FlatStore(m, lo, hi, size, values, n - 1), Address64(lo[n - 1], hi[n - 1]), size, values[n - 1])
  }

  function StoreAll(m: Mem, base: nat, size: nat, values: seq<nat>): Mem {
    StoreElements(m, base, size, values, |values|)
  }

  function FlatStoreAll(m: Mem, lo: Vgpr, hi: Vgpr, size: nat, values: seq<nat>): Mem
    requires |values| == LANES
  {
    FlatStore(m, lo, hi, size, values, |values|)
  }

  lemma {:induction false} FlatStoreIsElements(m: Mem, lo: Vgpr, hi: Vgpr, base: nat, size: nat, values: seq<nat>, n: nat)
    requires n <= |values| && n <= LANES
    requires forall i :: 0 <= i < LANES ==> Address64(lo[i], hi[i]) == base + i * size
    ensures FlatStore(m, lo, hi, size, values, n) == StoreElements(m, base, size, values, n)
    decreases n
  {
    if n > 0 { FlatStoreIsElements(m, lo, hi, base, size, values, n - 1); }
  }

  lemma {:induction false} StoreElementsFrame(m: Mem, base: nat, size: nat, values: seq<nat>, n: nat, k: nat)
    requires n <= |values| && !(base <= k < base + n * size)
    ensures k in StoreElements(m, base, size, values, n) <==> k in m
    ensures k in m ==> StoreElements(m, base, size, values, n)[k] == m[k]
    decreases n
  {
    if n > 0 {
      MulAdd(n - 1, 1, size);
      StoreElementsFrame(m, base, size, values, n - 1, k);
      StoreFrame(StoreElements(m, base, size, values, n - 1), base + (n - 1) * size, size, values[n - 1]);
    }
  }

  /** After the stores, element i holds value i. */
  lemma {:induction false} StoredElement(m: Mem, base: nat, size: nat, values: seq<nat>, n: nat, i: nat)
    requires i < n <= |values| && values[i] < Pow2(8 * size)
    ensures var r := StoreElements(m, base, size, values, n);
            Mapped(r, base + i * size, size) && Load(r, base + i * size, size) == values[i]
    decreases n
  {
    var before := StoreElements(m, base, size, values, n - 1);
    StoreFrame(before, base + (n - 1) * size, size, values[n - 1]);
    if i == n - 1 {
      LoadStored(before, base + i * size, size, values[i]);
    } else {
      StoredElement(m, base, size, values, n - 1, i);
      MulStep(i, n - 1, size);
      LoadFrame(before, StoreElements(m, base, size, values, n), base + i * size, size);
    }
  }

  // ---- buffers of small elements ----

  const DWORD := 4

  lemma TwoTo32()
    ensures Pow2(16) == 0x1_0000 && Pow2(32) == 0x1_0000_0000
  {
    assert Pow2(8) == 256;
    Pow2Add(8, 8);
    Pow2Add(16, 16);
  }

  lemma FitsWord(size: nat)
    requires size <= DWORD
    ensures Pow2(8 * size) <= 0x1_0000_0000
  {
    TwoTo32();
    Pow2Mono(8 * size, 32);
  }

  function LoadWord(m: Mem, a: nat, size: nat): (w: Word)
    requires size <= DWORD && Mapped(m, a, size)
  {
    FitsWord(size);
    Load(m, a, size)
  }

  function Dword(m: Mem, a: nat): Word
    requires Mapped(m, a, DWORD)
  {
    LoadWord(m, a, DWORD)
  }

  /** flat_load_dword, flat_load_ushort: zero-extended elements of the given size */
  function FlatLoad(m: Mem, lo: Vgpr, hi: Vgpr, size: nat): (v: Vgpr)
    requires size <= DWORD && forall i :: 0 <= i < LANES ==> Mapped(m, Address64(lo[i], hi[i]), size)
  {
    seq(LANES, i requires 0 <= i < LANES => LoadWord(m, Address64(lo[i], hi[i]), size))
  }

  /** The elements of a buffer. */
  function Elements(m: Mem, base: nat, size: nat): (v: Vgpr)
    requires size <= DWORD && BufferAt(m, base, size)
    ensures forall i :: 0 <= i < LANES ==> v[i] == Element(m, base, size, i)
  {
    FitsWord(size);
    seq(LANES, i requires 0 <= i < LANES => Element(m, base, size, i))
  }

  /** The address registers point lane i at element i. */
  predicate Addressed(lo: Vgpr, hi: Vgpr, base: nat, size: nat) {
    forall i :: 0 <= i < LANES ==> Address64(lo[i], hi[i]) == base + i * size
  }

  /** Work-item ids shifted left by one or two are byte offsets of halves or dwords. */
  lemma Offsets(shift: nat, size: nat)
    requires (shift == 1 && size == 2) || (shift == 2 && size == 4)
    ensures forall i :: 0 <= i < LANES ==> Lshl(WORK_ITEM, shift)[i] == i * size
  {
    assert Pow2(1) == 2 && Pow2(2) == 4;
  }

  /** v_add_u32 lo, vcc, slo, v0; v_mov_b32 hi, shi; v_addc_u32 hi, vcc, hi, 0, vcc */
  method FormAddress(slo: Word, shi: Word, v0: Vgpr, ghost base: nat, ghost size: nat) returns (lo: Vgpr, hi: Vgpr)
    requires Address64(slo, shi) == base && base + 64 * size <= 0x1_0000_0000_0000_0000 && 0 < size
    requires forall i :: 0 <= i < LANES ==> v0[i] == i * size
    ensures Addressed(lo, hi, base, size) && lo == AddU32(slo, v0)
  {
    var vcc: Vcc;
    lo, vcc := AddU32(slo, v0), AddCarry(slo, v0);
    hi := Splat(shi);
    hi, vcc := AddcU32(hi, vcc), AddcCarry(hi, vcc);
    forall i | 0 <= i < LANES
      ensures Address64(lo[i], hi[i]) == base + i * size
    {
      MulStep(i, 64, size);
      AddressNoWrap(slo, shi, v0, i);
    }
  }

  /** A flat load through such address registers reads the buffer's elements. */
  method LoadElements(m: Mem, lo: Vgpr, hi: Vgpr, size: nat, ghost base: nat) returns (v: Vgpr)
    requires size <= DWORD && BufferAt(m, base, size) && Addressed(lo, hi, base, size)
    ensures v == Elements(m, base, size)
  {
    forall i | 0 <= i < LANES
      ensures Mapped(m, Address64(lo[i], hi[i]), size)
    {
      ElementMapped(m, base, size, i);
    }
    v := FlatLoad(m, lo, hi, size);
  }

  lemma {:induction false} StoreElementsGrows(m: Mem, out: nat, size: nat, values: seq<nat>, n: nat)
    requires n <= |values|
    ensures forall k :: k in m ==> k in StoreElements(m, out, size, values, n)
    decreases n
  {
    if n > 0 {
      StoreElementsGrows(m, out, size, values, n - 1);
      StoreFrame(StoreElements(m, out, size, values, n - 1), out + (n - 1) * size, size, values[n - 1]);
    }
  }

  lemma StillMapped(m: Mem, base: nat, size: nat, out: nat, osize: nat, values: seq<nat>)
    requires BufferAt(m, base, size) && |values| == LANES
    ensures BufferAt(StoreAll(m, out, osize, values), base, size)
  {
    StoreElementsGrows(m, out, osize, values, |values|);
  }

  /** Storing one value per lane into a mapped buffer: element i then holds value i, and nothing outside
      the buffer changes. */
  lemma StoreEffect(m: Mem, out: nat, size: nat, values: seq<nat>, i: nat)
    requires |values| == LANES && i < LANES && BufferAt(m, out, size) && values[i] < Pow2(8 * size)
    ensures BufferAt(StoreAll(m, out, size, values), out, size)
    ensures Element(StoreAll(m, out, size, values), out, size, i) == values[i]
    ensures forall k :: k in m && !(out <= k < out + 64 * size) ==>
              k in StoreAll(m, out, size, values) && StoreAll(m, out, size, values)[k] == m[k]
  {
    StillMapped(m, out, size, out, size, values);
    StoredElement(m, out, size, values, |values|, i);
    forall k | k in m && !(out <= k < out + 64 * size)
      ensures k in StoreAll(m, out, size, values) && StoreAll(m, out, size, values)[k] == m[k]
    {
      StoreElementsFrame(m, out, size, values, |values|, k);
    }
  }

  // ---- kernel arguments ----

  /** A 64-bit pointer in memory, loaded as two dwords. */
  predicate PointsTo(m: Mem, a: nat, p: nat) {
    Mapped(m, a, DWORD) && Mapped(m, a + 4, DWORD) && Address64(Dword(m, a), Dword(m, a + 4)) == p
  }

  lemma PointerAt(m: Mem, k: nat, buf: seq<Byte>, ps: seq<nat>, n: nat, block: seq<Byte>)
    requires n < |ps| && ps[n] < Pow2(8 * Kernarg.PTR_SIZE)
    requires Kernarg.EndOf(0, Kernarg.Pointers(ps)) <= |buf|
    requires block == Kernarg.Pack(buf, 0, Kernarg.Pointers(ps)) && Holds(m, k, block)
    ensures PointsTo(m, k + 8 * n, ps[n])
  {
    Kernarg.PointerLoads(m, k, buf, ps, n, block);
    LoadHalves(m, k + 8 * n, DWORD, Kernarg.PTR_SIZE);
    TwoTo32();
  }

  lemma LoadHalves(m: Mem, a: nat, half: nat, size: nat)
    requires size == half + half && Mapped(m, a, size)
    ensures Load(m, a, size) == Load(m, a, half) + Pow2(8 * half) * Load(m, a + half, half)
  {
    LoadSplit(m, a, half, half);
  }

  /** The host passes pointers and the dispatch copies its block to address k: pointer n is then at k + 8n, and
      memory outside the block is as before. */
  method PassPointers(m: Mem, k: nat, ps: seq<nat>) returns (m': Mem)
    requires forall n :: 0 <= n < |ps| ==> ps[n] < Pow2(64)
    ensures forall n :: 0 <= n < |ps| ==> PointsTo(m', k + 8 * n, ps[n])
    ensures KeptOutside(m, m', k, 8 * |ps|)
  {
    var d := new Kernarg.Dispatch(8 * |ps|);
    ghost var buf := d.kernarg[..];
    var n := 0;
    Kernarg.NoPointers(buf, ps);
    while n < |ps|
      invariant n <= |ps| && fresh(d) && fresh(d.kernarg) && d.kernarg.Length == |buf| == 8 * |ps|
      invariant d.kernargOffset == 8 * n == Kernarg.EndOf(0, Kernarg.Pointers(ps[..n]))
      invariant d.kernarg[..] == Kernarg.Pack(buf, 0, Kernarg.Pointers(ps[..n]))
    {
      Kernarg.NextPointer(buf, ps, n);
      d.KernargBuffer(ps[n]);
      n := n + 1;
    }
    assert ps[..n] == ps;
    var block := d.kernarg[..];
    m' := Place(m, k, block);
    PlaceFrame(m, k, block);
    forall n | 0 <= n < |ps|
      ensures PointsTo(m', k + 8 * n, ps[n])
    {
      PointerAt(m', k, buf, ps, n, block);
    }
  }

  /** Nothing is unmapped, and nothing outside n bytes at a changes. */
  predicate KeptOutside(m: Mem, m': Mem, a: nat, n: nat) {
    forall k :: k in m ==> k in m' && (a <= k < a + n || m'[k] == m[k])
  }

  /** A buffer and the block of n bytes at a have no byte in common. */
  predicate Apart(base: nat, size: nat, a: nat, n: nat) { base + 64 * size <= a || a + n <= base }

  lemma AddressFits(m: Mem, base: nat, size: nat)
    requires BufferAt(m, base, size) && size > 0
    ensures base < Pow2(64)
  {
    TwoTo32();
    Pow2Add(32, 32);
  }

  lemma BufferStays(m: Mem, m': Mem, a: nat, n: nat, base: nat, size: nat)
    requires KeptOutside(m, m', a, n) && BufferAt(m, base, size)
    ensures BufferAt(m', base, size)
  {}

  /** A buffer with the same elements in both memories. */
  predicate SameBuffer(m: Mem, m': Mem, base: nat, size: nat) {
    && BufferAt(m, base, size) && BufferAt(m', base, size)
    && forall i :: 0 <= i < LANES ==> Element(m', base, size, i) == Element(m, base, size, i)
  }

  lemma SameBytesSameBuffer(m: Mem, m': Mem, base: nat, size: nat)
    requires BufferAt(m, base, size) && BufferAt(m', base, size)
    requires forall k :: base <= k < base + 64 * size ==> m'[k] == m[k]
    ensures SameBuffer(m, m', base, size)
  {
    forall i | 0 <= i < LANES
      ensures Element(m', base, size, i) == Element(m, base, size, i)
    {
      ElementMapped(m, base, size, i);
      MulStep(i, 64, size);
      LoadFrame(m, m', base + i * size, size);
    }
  }

  /** A buffer apart from what changed has its elements still. */
  lemma ElementsKept(m: Mem, m': Mem, a: nat, n: nat, base: nat, size: nat)
    requires KeptOutside(m, m', a, n) && BufferAt(m, base, size) && Apart(base, size, a, n)
    ensures SameBuffer(m, m', base, size)
  {
    SameBytesSameBuffer(m, m', base, size);
  }
}
