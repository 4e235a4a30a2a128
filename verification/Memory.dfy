/** Byte-addressed little-endian memory. */
module Memory {
  import opened Bits

  type Byte = n: nat | n < 256
  type Mem = map<nat, Byte>

  predicate Mapped(m: Mem, a: nat, n: nat) { forall k :: a <= k < a + n ==> k in m }

  function Load(m: Mem, a: nat, n: nat): (w: nat)
    requires Mapped(m, a, n)
    ensures w < Pow2(8 * n)
    decreases n
  {
    if n == 0 then 0 else
      assert Pow2(8 * n) == 256 * Pow2(8 * (n - 1)) by { Pow2Add(8, 8 * (n - 1)); assert Pow2(8) == 256; }
      m[a] + 256 * Load(m, a + 1, n - 1)
  }

  function Store(m: Mem, a: nat, n: nat, w: nat): Mem
    decreases n
  {
    if n == 0 then m else Store(m[a := w % 256], a + 1, n - 1, w / 256)
  }

  /** The bytes of a number, lowest first. */
  function Bytes(w: nat, n: nat): (b: seq<Byte>)
    ensures |b| == n
  {
    if n == 0 then [] else [w % 256] + Bytes(w / 256, n - 1)
  }

  /** Memory holds a byte string at an address. */
  predicate Holds(m: Mem, a: nat, b: seq<Byte>) {
    forall k: nat :: a <= k < a + |b| ==> k in m && m[k] == b[k - a]
  }

  /** Memory after a byte string was put at an address. */
  function Place(m: Mem, a: nat, b: seq<Byte>): Mem
    decreases |b|
  {
    if b == [] then m else Place(m[a := b[0]], a + 1, b[1..])
  }

  lemma {:induction false} PlaceFrame(m: Mem, a: nat, b: seq<Byte>)
    ensures Holds(Place(m, a, b), a, b)
    ensures forall k :: k in m ==> k in Place(m, a, b)
    ensures forall k :: k in m && !(a <= k < a + |b|) ==> Place(m, a, b)[k] == m[k]
    decreases |b|
  {
    if b != [] {
      var m1 := m[a := b[0]];
      PlaceFrame(m1, a + 1, b[1..]);
      PlaceKeeps(m1, a + 1, b[1..], a);
    }
  }

  lemma {:induction false} PlaceKeeps(m: Mem, a: nat, b: seq<Byte>, k: nat)
    requires k in m && k < a
    ensures k in Place(m, a, b) && Place(m, a, b)[k] == m[k]
    decreases |b|
  {
    if b != [] { PlaceKeeps(m[a := b[0]], a + 1, b[1..], k); }
  }

  lemma {:induction false} StoreFrame(m: Mem, a: nat, n: nat, w: nat)
    ensures forall k: nat :: k in Store(m, a, n, w) <==> k in m || a <= k < a + n
    ensures forall k: nat :: k in m && !(a <= k < a + n) ==> Store(m, a, n, w)[k] == m[k]
    decreases n
  {
    if n > 0 {
      var m' := m[a := w % 256];
      StoreFrame(m', a + 1, n - 1, w / 256);
      assert forall k: nat :: k in m' <==> k in m || k == a;
    }
  }

  lemma {:induction false} LoadFrame(m: Mem, m': Mem, a: nat, n: nat)
    requires Mapped(m, a, n) && Mapped(m', a, n)
    requires forall k :: a <= k < a + n ==> m[k] == m'[k]
    ensures Load(m, a, n) == Load(m', a, n)
    decreases n
  {
    if n > 0 { LoadFrame(m, m', a + 1, n - 1); }
  }

  /** Reading back what was stored. */
  lemma {:induction false} LoadStored(m: Mem, a: nat, n: nat, w: nat)
    requires w < Pow2(8 * n)
    ensures Mapped(Store(m, a, n, w), a, n) && Load(Store(m, a, n, w), a, n) == w
    decreases n
  {
    StoreFrame(m, a, n, w);
    if n > 0 {
      Pow2Add(8, 8 * (n - 1));
      assert Pow2(8) == 256;
      StoreFrame(m[a := w % 256], a + 1, n - 1, w / 256);
      LoadStored(m[a := w % 256], a + 1, n - 1, w / 256);
    }
  }

  /** A number spelled out in memory is read back. */
  lemma {:induction false} LoadBytes(m: Mem, a: nat, n: nat, w: nat)
    requires w < Pow2(8 * n) && Holds(m, a, Bytes(w, n))
    ensures Mapped(m, a, n) && Load(m, a, n) == w
    decreases n
  {
    var b := Bytes(w, n);
    if n > 0 {
      Pow2Add(8, 8 * (n - 1));
      assert Pow2(8) == 256;
      assert b[1..] == Bytes(w / 256, n - 1);
      forall k: nat | a + 1 <= k < a + n
        ensures m[k] == b[1..][k - (a + 1)]
      {}
      LoadBytes(m, a + 1, n - 1, w / 256);
      assert m[a] == b[0];
    }
  }

  /** A wide load is its low part plus its high part. */
  lemma {:induction false} LoadSplit(m: Mem, a: nat, p: nat, q: nat)
    requires Mapped(m, a, p + q)
    ensures Load(m, a, p + q) == Load(m, a, p) + Pow2(8 * p) * Load(m, a + p, q)
    decreases p
  {
    if p > 0 {
      LoadSplit(m, a + 1, p - 1, q);
      Pow2Add(8, 8 * (p - 1));
      assert Pow2(8) == 256;
      MulAssoc(256, Pow2(8 * (p - 1)), Load(m, a + p, q));
    }
  }

  lemma SliceHolds(m: Mem, a: nat, r: seq<Byte>, s: nat, b: seq<Byte>)
    requires Holds(m, a, r) && s + |b| <= |r| && r[s..s + |b|] == b
    ensures Holds(m, a + s, b)
  {
    forall k: nat | a + s <= k < a + s + |b|
      ensures k in m && m[k] == b[k - (a + s)]
    {
      assert r[s..s + |b|][k - (a + s)] == r[k - a];
    }
  }
}
