/** The debug dump macros: a ring of 16 vector registers written one dumped register at a time. */
module DebugRing {

  const RING := 16

  /** How a dumped value is written: v_mov_b32 or v_cvt_f32_i32. */
  type Conversion = int -> int

  /** One dump of `count` registers starting at `first`, from the vector (or scalar) file. */
  datatype Dump = Dump(vector: bool, first: nat, count: nat)

  /** One use of a dump macro. */
  datatype Use = Use(dump: Dump, convert: Conversion)

  /** dbg_i and the register files; `dbg` is the first ring register. */
  class Machine {
    var v: array<int>
    var s: array<int>
    var dbg: nat
    var dbgI: nat
    var execLo: nat
    var execHi: nat
    var saveLo: nat
    var saveHi: nat

    ghost predicate Valid()
      reads `v, `s, `dbg, `dbgI
    {
      v != s && dbg + RING <= v.Length && dbgI < RING
    }

    /** The registers of a dump exist, and a vector dump does not read the ring itself. */
    ghost predicate CanDump(d: Dump)
      reads `v, `s, `dbg
    {
      if d.vector then d.first + d.count <= dbg || (dbg + RING <= d.first && d.first + d.count <= v.Length)
      else d.first + d.count <= s.Length
    }

    /** The values a dump reads. */
    ghost function Source(d: Dump): (r: seq<int>)
      requires Valid() && CanDump(d)
      reads `v, `s, `dbg, `dbgI, v, s
      ensures |r| == d.count
    {
      if d.vector then v[d.first..d.first + d.count] else s[d.first..d.first + d.count]
    }

    ghost function Ring(): (r: seq<int>)
      requires Valid()
      reads `v, `s, `dbg, `dbgI, v
      ensures |r| == RING
    {
      v[dbg..dbg + RING]
    }

    /** Write the current ring register, advance the index, wrap at 16. */
    method WriteSlot(value: int)
      requires Valid()
      modifies this`dbgI, v
      ensures Valid() && dbgI == (old(dbgI) + 1) % 16
      ensures Ring() == old(Ring())[old(dbgI) := value]
      ensures forall k :: 0 <= k < v.Length && !(dbg <= k < dbg + RING) ==> v[k] == old(v[k])
    {
      v[dbg + dbgI] := value;
      dbgI := dbgI + 1;
      if dbgI == 16 { dbgI := 0; }
    }

    /** One repetition of a dump: copy register i into the ring. */
    method CopyOne(d: Dump, i: nat, convert: Conversion)
      requires Valid() && CanDump(d) && i < d.count
      modifies `dbgI, v
      ensures Valid() && dbgI == (old(dbgI) + 1) % 16
      ensures Ring() == old(Ring())[old(dbgI) := convert(old(Source(d))[i])]
      ensures forall k :: 0 <= k < v.Length && !(dbg <= k < dbg + RING) ==> v[k] == old(v[k])
      ensures Source(d) == old(Source(d))
    {
      ghost var source := Source(d);
      var value := if d.vector then v[d.first + i] else s[d.first + i];
      assert value == source[i];
      WriteSlot(convert(value));
      assert Source(d) == source;
    }

    /** The repetitions of a dump, one per register. */
    method Repeat(d: Dump, convert: Conversion)
      requires Valid() && CanDump(d)
      modifies `dbgI, v
      ensures Valid() && dbgI == (old(dbgI) + d.count) % 16
      ensures Ring() == Written(old(Ring()), old(dbgI), Converted(old(Source(d)), convert))
      ensures forall k :: 0 <= k < v.Length && !(dbg <= k < dbg + RING) ==> v[k] == old(v[k])
    {
      ghost var from, source, ring := dbgI, Source(d), Ring();
      ghost var values := Converted(source, convert);
      var i := 0;
      while i < d.count
        invariant 0 <= i <= d.count && Valid() && dbgI == (from + i) % 16
        invariant Source(d) == source
        invariant Ring() == Written(ring, from, values[..i])
        invariant forall k :: 0 <= k < v.Length && !(dbg <= k < dbg + RING) ==> v[k] == old(v[k])
      {
        WrittenSnoc(ring, from, values, i, dbgI);
        CopyOne(d, i, convert);
        i := i + 1;
      }
      assert values[..i] == values;
    }

    /** The copies of a dump, seen from outside: its last values are in the ring. */
    method CopyAll(d: Dump, convert: Conversion)
      requires Valid() && CanDump(d)
      modifies `dbgI, v
      ensures Valid() && dbgI == (old(dbgI) + d.count) % 16
      ensures Ring() == Written(old(Ring()), old(dbgI), Converted(old(Source(d)), convert))
      ensures DumpSeen(old(v[..]), v[..], if d.vector then old(v[..]) else old(s[..]), dbg, old(dbgI), d, convert)
      ensures forall k :: 0 <= k < v.Length && !(dbg <= k < dbg + RING) ==> v[k] == old(v[k])
    {
      ghost var before, file, at, source := v[..], if d.vector then v[..] else s[..], dbgI, Source(d);
      Repeat(d, convert);
      Dumped(before, v[..], file, source, dbg, at, d, convert);
    }

    /** dump_vgpr, dump_sgpr, dump_fvgpr and dump_fsgpr, which differ in the source file and the conversion:
        all lanes are switched on around the copies and exec is put back. */
    method DumpRegisters(d: Dump, convert: Conversion)
      requires Valid() && CanDump(d)
      modifies `dbgI, `execLo, `execHi, `saveLo, `saveHi, v
      ensures Valid() && dbgI == (old(dbgI) + d.count) % 16
      ensures execLo == old(execLo) && execHi == old(execHi)
      ensures Ring() == Written(old(Ring()), old(dbgI), Converted(old(Source(d)), convert))
      ensures DumpSeen(old(v[..]), v[..], if d.vector then old(v[..]) else old(s[..]), dbg, old(dbgI), d, convert)
      ensures forall k :: 0 <= k < v.Length && !(dbg <= k < dbg + RING) ==> v[k] == old(v[k])
    {
      ghost var v0, s0, source := v[..], s[..], Source(d);
      saveLo, saveHi := execLo, execHi;
      execLo, execHi := 0xffff_ffff, 0xffff_ffff;
      assert v[..] == v0 && s[..] == s0 && Source(d) == source;
      CopyAll(d, convert);
      ghost var v1 := v[..];
      execLo, execHi := saveLo, saveHi;
      assert v[..] == v1;
    }

    /** The registers of all these dumps exist and are outside the ring. */
    ghost predicate CanDumpAll(uses: seq<Use>)
      reads `v, `s, `dbg
    {
      forall u :: u in uses ==> CanDump(u.dump)
    }

    /** The values that uses of the macros write, in order. */
    ghost function Streams(uses: seq<Use>): (r: seq<seq<int>>)
      requires Valid() && CanDumpAll(uses)
      reads `v, `s, `dbg, `dbgI, v, s
      ensures |r| == |uses|
    {
      if uses == [] then []
      else
        var u := uses[|uses| - 1];
        Streams(uses[..|uses| - 1]) + [Converted(Source(u.dump), u.convert)]
    }

    /** Registers outside the ring that have not changed give the same values. */
    twostate lemma SourceKept(d: Dump)
      requires old(Valid() && CanDump(d)) && Valid() && v == old(v) && s == old(s) && dbg == old(dbg)
      requires forall k :: 0 <= k < v.Length && !(dbg <= k < dbg + RING) ==> v[k] == old(v[k])
      requires s[..] == old(s[..])
      ensures CanDump(d) && Source(d) == old(Source(d))
    {
      if d.vector {
        assert v[d.first..d.first + d.count] == old(v[d.first..d.first + d.count]);
      } else {
        assert s[d.first..d.first + d.count] == s[..][d.first..d.first + d.count];
      }
    }

    /** One more dump, after registers outside the ring have stayed as they were. */
    method DumpNext(u: Use, ghost source: seq<int>)
      requires Valid() && CanDump(u.dump) && source == Source(u.dump)
      modifies `dbgI, `execLo, `execHi, `saveLo, `saveHi, v
      ensures Valid() && execLo == old(execLo) && execHi == old(execHi)
      ensures (Ring(), dbgI) == AfterDump(old(Ring()), old(dbgI), Converted(source, u.convert))
      ensures forall k :: 0 <= k < v.Length && !(dbg <= k < dbg + RING) ==> v[k] == old(v[k])
    {
      DumpRegisters(u.dump, u.convert);
    }

    /** A sequence of dumps, each going on where the one before stopped. */
    method DumpAll(uses: seq<Use>)
      requires Valid() && CanDumpAll(uses)
      modifies `dbgI, `execLo, `execHi, `saveLo, `saveHi, v
      ensures Valid() && execLo == old(execLo) && execHi == old(execHi)
      ensures (Ring(), dbgI) == AfterDumps(old(Ring()), old(dbgI), old(Streams(uses)))
      ensures forall k :: 0 <= k < v.Length && !(dbg <= k < dbg + RING) ==> v[k] == old(v[k])
      decreases |uses|
    {
      if uses != [] {
        var u := uses[|uses| - 1];
        DumpAll(uses[..|uses| - 1]);
        SourceKept(u.dump);
        DumpNext(u, old(Source(u.dump)));
      }
    }
  }

  lemma ModAdd(x: nat, n: nat)
    ensures (x % 16 + n) % 16 == (x + n) % 16
  {}

  function Converted(values: seq<int>, convert: Conversion): (r: seq<int>)
    ensures |r| == |values|
  {
    seq(|values|, i requires 0 <= i < |values| => convert(values[i]))
  }

  /** A ring after values were written from position `at` on. */
  function Written(ring: seq<int>, at: nat, values: seq<int>): (r: seq<int>)
    requires |ring| == RING
    ensures |r| == RING
  {
    if values == [] then ring
    else
      var n := |values| - 1;
      Written(ring, at, values[..n])[(at + n) % 16 := values[n]]
  }

  lemma WrittenSnoc(ring: seq<int>, at: nat, values: seq<int>, i: nat, next: nat)
    requires |ring| == RING && i < |values| && next == (at + i) % 16
    ensures Written(ring, at, values[..i + 1]) == Written(ring, at, values[..i])[next := values[i]]
    ensures (next + 1) % 16 == (at + i + 1) % 16
  {
    assert values[..i + 1][..i] == values[..i];
    ModAdd(at + i, 1);
  }

  lemma {:induction false} WrittenAppend(ring: seq<int>, at: nat, a: seq<int>, b: seq<int>)
    requires |ring| == RING
    ensures Written(ring, at, a + b) == Written(Written(ring, at, a), (at + |a|) % 16, b)
    decreases |b|
  {
    if b == [] {
      assert a + b == a;
    } else {
      var n := |b| - 1;
      assert (a + b)[..|a + b| - 1] == a + b[..n] && (a + b)[|a + b| - 1] == b[n];
      WrittenAppend(ring, at, a, b[..n]);
      ModAdd(at + |a|, n);
    }
  }

  /** Values of a whole sequence of dumps, in order. */
  function Concat(dumps: seq<seq<int>>): seq<int> {
    if dumps == [] then [] else Concat(dumps[..|dumps| - 1]) + dumps[|dumps| - 1]
  }

  /** The ring after dump after dump, each starting where the one before stopped. */
  function AfterDumps(ring: seq<int>, at: nat, dumps: seq<seq<int>>): (r: (seq<int>, nat))
    requires |ring| == RING && at < RING
    ensures |r.0| == RING && r.1 < RING
  {
    if dumps == [] then (ring, at)
    else
      var (r, next) := AfterDumps(ring, at, dumps[..|dumps| - 1]);
      AfterDump(r, next, dumps[|dumps| - 1])
  }

  function AfterDump(ring: seq<int>, at: nat, values: seq<int>): (r: (seq<int>, nat))
    requires |ring| == RING
    ensures |r.0| == RING && r.1 < RING
  {
    (Written(ring, at, values), (at + |values|) % 16)
  }

  lemma {:induction false} DumpsAreOneStream(ring: seq<int>, at: nat, dumps: seq<seq<int>>)
    requires |ring| == RING && at < RING
    ensures AfterDumps(ring, at, dumps) == (Written(ring, at, Concat(dumps)), (at + |Concat(dumps)|) % 16)
    decreases |dumps|
  {
    if dumps != [] {
      var n := |dumps| - 1;
      DumpsAreOneStream(ring, at, dumps[..n]);
      var c := Concat(dumps[..n]);
      WrittenAppend(ring, at, c, dumps[n]);
      ModAdd(at + |c|, |dumps[n]|);
    }
  }

  lemma {:induction false} LatestInSlot(ring: seq<int>, at: nat, values: seq<int>, j: nat)
    requires |ring| == RING && |values| <= j + RING && j < |values|
    ensures Written(ring, at, values)[(at + j) % 16] == values[j]
    decreases |values|
  {
    var n := |values| - 1;
    if j < n {
      LatestInSlot(ring, at, values[..n], j);
      Residues(at + j, at + n);
    }
  }

  /** Positions behind the values keep what they hold. */
  lemma {:induction false} SlotKept(ring: seq<int>, at: nat, values: seq<int>, j: nat)
    requires |ring| == RING && |values| <= j < RING
    ensures Written(ring, at, values)[(at + j) % 16] == ring[(at + j) % 16]
    decreases |values|
  {
    if values != [] {
      var n := |values| - 1;
      SlotKept(ring, at, values[..n], j);
      Residues(at + n, at + j);
    }
  }

  /** The last 16 registers of a dump, or all of them, are in the ring registers one after another from the write
      index on; `file` are the registers of the dumped kind before, `after` the vector registers now. */
  predicate LastValues(after: seq<int>, dbg: nat, at: nat, file: seq<int>, d: Dump, convert: Conversion)
    requires dbg + RING <= |after| && d.first + d.count <= |file|
  {
    forall k :: d.first <= k < d.first + d.count <= k + RING ==>
      after[dbg + (at + (k - d.first)) % 16] == convert(file[k])
  }

  /** The ring registers that the dump does not come to keep their values. */
  predicate OthersKept(before: seq<int>, after: seq<int>, dbg: nat, at: nat, count: nat)
    requires dbg + RING <= |after| == |before|
  {
    forall k :: dbg <= k < dbg + RING && (k - dbg - at) % 16 >= count ==> after[k] == before[k]
  }

  predicate DumpSeen(before: seq<int>, after: seq<int>, file: seq<int>, dbg: nat, at: nat, d: Dump, convert: Conversion) {
    && dbg + RING <= |after| == |before| && d.first + d.count <= |file|
    && LastValues(after, dbg, at, file, d, convert) && OthersKept(before, after, dbg, at, d.count)
  }

  lemma Dumped(before: seq<int>, after: seq<int>, file: seq<int>, source: seq<int>, dbg: nat, at: nat, d: Dump,
               convert: Conversion)
    requires dbg + RING <= |after| == |before| && at < RING
    requires d.first + d.count <= |file| && source == file[d.first..d.first + d.count]
    requires after[dbg..dbg + RING] == Written(before[dbg..dbg + RING], at, Converted(source, convert))
    ensures DumpSeen(before, after, file, dbg, at, d, convert)
  {
    var ring := after[dbg..dbg + RING];
    DumpSlots(before[dbg..dbg + RING], at, source, convert);
    forall k | d.first <= k < d.first + d.count <= k + RING
      ensures after[dbg + (at + (k - d.first)) % 16] == convert(file[k])
    {
      assert file[k] == source[k - d.first];
    }
    forall k | dbg <= k < dbg + RING && (k - dbg - at) % 16 >= d.count
      ensures after[k] == before[k]
    {
      assert after[k] == ring[k - dbg] && before[k] == before[dbg..dbg + RING][k - dbg];
    }
  }

  lemma DumpSlots(ring: seq<int>, at: nat, source: seq<int>, convert: Conversion)
    requires |ring| == RING && at < RING
    ensures var r := Written(ring, at, Converted(source, convert));
            && (forall i :: 0 <= i < |source| <= i + RING ==> r[(at + i) % 16] == convert(source[i]))
            && forall k :: 0 <= k < RING && (k - at) % 16 >= |source| ==> r[k] == ring[k]
  {
    var values := Converted(source, convert);
    var r := Written(ring, at, values);
    forall i | 0 <= i < |source| <= i + RING
      ensures r[(at + i) % 16] == convert(source[i])
    {
      LatestInSlot(ring, at, values, i);
    }
    forall k | 0 <= k < RING && (k - at) % 16 >= |source|
      ensures r[k] == ring[k]
    {
      SlotKept(ring, at, values, (k - at) % 16);
      assert (at + (k - at) % 16) % 16 == k;
    }
  }

  lemma Residues(j: nat, n: nat)
    requires j < n < j + 16
    ensures n % 16 != j % 16
  {}

  /** After any sequence of dumps, the write index has advanced by the total dumped modulo 16, and every slot holds
      the most recent value whose position has the slot's residue. */
  lemma RingHoldsLatest(ring: seq<int>, at: nat, dumps: seq<seq<int>>, j: nat)
    requires |ring| == RING && at < RING && j < |Concat(dumps)| <= j + RING
    ensures var (r, next) := AfterDumps(ring, at, dumps);
            next == (at + |Concat(dumps)|) % 16 && r[(at + j) % 16] == Concat(dumps)[j]
  {
    DumpsAreOneStream(ring, at, dumps);
    LatestInSlot(ring, at, Concat(dumps), j);
  }
}
