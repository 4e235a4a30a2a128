/** Kernel argument packing: an aligned bump writer over the kernarg allocation. */
module Kernarg {
  import opened Bits
  import opened Memory

  datatype Arg = Arg(data: seq<Byte>, align: nat)

  /** The offset KernargRaw moves to before it copies. */
  function AlignUp(off: nat, align: nat): nat
    requires align > 0
  {
    (off + align - 1) / align * align
  }

  predicate ArgsOk(args: seq<Arg>) { forall i :: 0 <= i < |args| ==> args[i].align > 0 }

  /** End of the packed area after some arguments. */
  function EndOf(off: nat, args: seq<Arg>): nat
    requires ArgsOk(args)
    decreases |args|
  {
    if args == [] then off else EndOf(AlignUp(off, args[0].align) + |args[0].data|, args[1..])
  }

  /** Start of argument n. */
  function StartOf(off: nat, args: seq<Arg>, n: nat): nat
    requires ArgsOk(args) && n < |args|
  {
    AlignUp(EndOf(off, args[..n]), args[n].align)
  }

  function Write(buf: seq<Byte>, at: nat, data: seq<Byte>): (r: seq<Byte>)
    requires at + |data| <= |buf|
    ensures |r| == |buf|
  {
    buf[..at] + data + buf[at + |data|..]
  }

  /** The allocation after a sequence of KernargRaw calls. */
  function Pack(buf: seq<Byte>, off: nat, args: seq<Arg>): (r: seq<Byte>)
    requires ArgsOk(args) && EndOf(off, args) <= |buf|
    ensures |r| == |buf|
    decreases |args|
  {
    if args == [] then buf
    else
      EndGrows(off, args);
      var at := AlignUp(off, args[0].align);
      Pack(Write(buf, at, args[0].data), at + |args[0].data|, args[1..])
  }

  lemma AlignUpLeast(off: nat, align: nat)
    requires align > 0
    ensures AlignUp(off, align) % align == 0 && off <= AlignUp(off, align) < off + align
  {
    var q, r := (off + align - 1) / align, (off + align - 1) % align;
    assert off + align - 1 == q * align + r;
    DivUnique(q * align, align, q, 0);
  }

  lemma {:induction false} EndGrows(off: nat, args: seq<Arg>)
    requires ArgsOk(args)
    ensures off <= EndOf(off, args)
    ensures args != [] ==> AlignUp(off, args[0].align) + |args[0].data| <= EndOf(off, args)
    decreases |args|
  {
    if args != [] {
      AlignUpLeast(off, args[0].align);
      EndGrows(AlignUp(off, args[0].align) + |args[0].data|, args[1..]);
    }
  }

  class Dispatch {
    var kernarg: array<Byte>
    var kernargOffset: nat

    /** AllocateKernarg: a fresh block of the given size and offset zero. */
    constructor (size: nat)
      ensures fresh(kernarg) && kernarg.Length == size && kernargOffset == 0
    {
      kernarg := new Byte[size];
      kernargOffset := 0;
    }

    /** The caller asserts a power of two, must not pass zero (the division would trap), and is trusted
        to have allocated enough. */
    method KernargRaw(data: seq<Byte>, align: nat)
      requires align > 0 && And(align, align - 1) == 0
      requires AlignUp(kernargOffset, align) + |data| <= kernarg.Length
      modifies this`kernargOffset, kernarg
      ensures kernarg == old(kernarg)
      ensures kernargOffset == EndOf(old(kernargOffset), [Arg(data, align)])
      ensures kernarg[..] == Pack(old(kernarg[..]), old(kernargOffset), [Arg(data, align)])
    {
      ghost var before := kernarg[..];
      kernargOffset := (kernargOffset + align - 1) / align * align;
      ghost var at := kernargOffset;
      var i := 0;
      while i < |data|
        invariant 0 <= i <= |data| && kernargOffset == at
        invariant kernarg[..] == before[..kernargOffset] + data[..i] + before[kernargOffset + i..]
      {
        kernarg[kernargOffset + i] := data[i];
        i := i + 1;
      }
      assert kernarg[..] == Write(before, kernargOffset, data);
      kernargOffset := kernargOffset + |data|;
    }

    /** A buffer argument: its 8-byte device pointer, aligned to its own size. */
    method KernargBuffer(localPtr: nat)
      requires localPtr < Pow2(64)
      requires AlignUp(kernargOffset, 8) + 8 <= kernarg.Length
      modifies this`kernargOffset, kernarg
      ensures kernarg == old(kernarg)
      ensures kernargOffset == EndOf(old(kernargOffset), [Pointer(localPtr)])
      ensures kernarg[..] == Pack(old(kernarg[..]), old(kernargOffset), [Pointer(localPtr)])
    {
      EightIsPow2();
      KernargRaw(Bytes(localPtr, 8), 8);
    }
  }

  /** Bytes of a device pointer. */
  const PTR_SIZE := 8

  function Pointer(p: nat): Arg { Arg(Bytes(p, PTR_SIZE), PTR_SIZE) }

  lemma EightIsPow2()
    ensures And(8, 7) == 0
  {
    assert 8 == Pow2(3);
    AndPred(8);
  }

  /** The assertion's test admits zero and the powers of two, and nothing else. */
  lemma AssertAdmits(align: nat)
    ensures And(align, if align > 0 then align - 1 else Pow2(64) - 1) == 0 <==> align == 0 || IsPow2(align)
  {
    if align > 0 { AndPred(align); }
  }

  // ---- sequences of calls ----

  lemma {:induction false} EndOfSnoc(off: nat, args: seq<Arg>, n: nat)
    requires ArgsOk(args) && n < |args|
    ensures EndOf(off, args[..n + 1]) == StartOf(off, args, n) + |args[n].data|
    decreases n
  {
    if n == 0 {
      assert args[..1] == [args[0]] && args[..0] == [];
    } else {
      var off' := AlignUp(off, args[0].align) + |args[0].data|;
      EndOfSnoc(off', args[1..], n - 1);
      assert args[..n + 1][1..] == args[1..][..n];
      assert args[..n][1..] == args[1..][..n - 1];
    }
  }

  /** Argument starts are aligned, in order, disjoint from the argument before, and preceded by a gap
      smaller than their alignment. */
  lemma ArgPlacement(off: nat, args: seq<Arg>, n: nat)
    requires ArgsOk(args) && n < |args|
    ensures StartOf(off, args, n) % args[n].align == 0
    ensures var end := if n == 0 then off else StartOf(off, args, n - 1) + |args[n - 1].data|;
            end <= StartOf(off, args, n) < end + args[n].align
  {
    AlignUpLeast(EndOf(off, args[..n]), args[n].align);
    if n > 0 { EndOfSnoc(off, args, n - 1); } else { assert args[..0] == []; }
  }

  lemma {:induction false} PackUntouched(buf: seq<Byte>, off: nat, args: seq<Arg>, k: nat)
    requires ArgsOk(args) && EndOf(off, args) <= |buf| && k < |buf|
    requires k < off || EndOf(off, args) <= k
    ensures Pack(buf, off, args)[k] == buf[k]
    decreases |args|
  {
    if args != [] {
      EndGrows(off, args);
      var at := AlignUp(off, args[0].align);
      AlignUpLeast(off, args[0].align);
      EndGrows(at + |args[0].data|, args[1..]);
      PackUntouched(Write(buf, at, args[0].data), at + |args[0].data|, args[1..], k);
    }
  }

  lemma {:induction false} EndOfPrefix(off: nat, args: seq<Arg>, n: nat)
    requires ArgsOk(args) && n <= |args|
    ensures EndOf(off, args[..n]) <= EndOf(off, args)
    decreases n
  {
    EndGrows(off, args);
    if n > 0 {
      assert args[..n][1..] == args[1..][..n - 1];
      EndOfPrefix(AlignUp(off, args[0].align) + |args[0].data|, args[1..], n - 1);
    } else {
      assert args[..0] == [];
    }
  }

  lemma FirstReadsBack(buf: seq<Byte>, off: nat, args: seq<Arg>)
    requires ArgsOk(args) && args != [] && EndOf(off, args) <= |buf|
    ensures var at := AlignUp(off, args[0].align);
            at + |args[0].data| <= |buf| && Pack(buf, off, args)[at..at + |args[0].data|] == args[0].data
  {
    EndGrows(off, args);
    var at := AlignUp(off, args[0].align);
    var next := at + |args[0].data|;
    var r := Pack(buf, off, args);
    forall k | at <= k < next
      ensures r[k] == args[0].data[k - at]
    {
      PackUntouched(Write(buf, at, args[0].data), next, args[1..], k);
    }
    assert r[at..next] == args[0].data;
  }

  /** After any fitting sequence of calls every argument reads back byte for byte at its start. */
  lemma {:induction false} ArgReadsBack(buf: seq<Byte>, off: nat, args: seq<Arg>, n: nat)
    requires ArgsOk(args) && EndOf(off, args) <= |buf| && n < |args|
    ensures var s := StartOf(off, args, n);
            s + |args[n].data| <= |buf| && Pack(buf, off, args)[s..s + |args[n].data|] == args[n].data
    decreases n
  {
    EndOfPrefix(off, args, n + 1);
    EndOfSnoc(off, args, n);
    EndGrows(off, args);
    var at := AlignUp(off, args[0].align);
    var next := at + |args[0].data|;
    var buf' := Write(buf, at, args[0].data);
    if n == 0 {
      assert args[..0] == [];
      FirstReadsBack(buf, off, args);
    } else {
      ArgReadsBack(buf', next, args[1..], n - 1);
      assert args[..n][1..] == args[1..][..n - 1];
    }
  }

  function Pointers(ps: seq<nat>): (args: seq<Arg>)
    ensures |args| == |ps| && ArgsOk(args)
  {
    seq(|ps|, i requires 0 <= i < |ps| => Pointer(ps[i]))
  }

  lemma {:induction false} EndSnoc(off: nat, args: seq<Arg>, arg: Arg)
    requires ArgsOk(args) && arg.align > 0
    ensures ArgsOk(args + [arg]) && EndOf(off, args + [arg]) == EndOf(EndOf(off, args), [arg])
    ensures EndOf(off, args) <= EndOf(off, args + [arg])
    decreases |args|
  {
    EndGrows(EndOf(off, args), [arg]);
    if args == [] {
      assert args + [arg] == [arg];
    } else {
      assert (args + [arg])[1..] == args[1..] + [arg];
      EndSnoc(AlignUp(off, args[0].align) + |args[0].data|, args[1..], arg);
    }
  }

  /** One call more. */
  lemma {:induction false} PackSnoc(buf: seq<Byte>, off: nat, args: seq<Arg>, arg: Arg)
    requires ArgsOk(args) && arg.align > 0 && EndOf(off, args) <= |buf|
    requires ArgsOk(args + [arg]) && EndOf(off, args + [arg]) <= |buf|
    requires EndOf(EndOf(off, args), [arg]) <= |buf|
    ensures Pack(buf, off, args + [arg]) == Pack(Pack(buf, off, args), EndOf(off, args), [arg])
    decreases |args|
  {
    if args == [] {
      assert args + [arg] == [arg];
    } else {
      EndGrows(off, args);
      var at := AlignUp(off, args[0].align);
      assert (args + [arg])[1..] == args[1..] + [arg] && (args + [arg])[0] == args[0];
      PackSnoc(Write(buf, at, args[0].data), at + |args[0].data|, args[1..], arg);
    }
  }

  lemma PointersSnoc(ps: seq<nat>, n: nat)
    requires n < |ps|
    ensures Pointers(ps[..n + 1]) == Pointers(ps[..n]) + [Pointer(ps[n])]
  {}

  /** n buffer arguments sit back to back from offset 0. */
  lemma {:induction false} PointersBackToBack(ps: seq<nat>, n: nat)
    requires n <= |ps|
    ensures EndOf(0, Pointers(ps)[..n]) == 8 * n
    ensures n < |ps| ==> StartOf(0, Pointers(ps), n) == 8 * n
    decreases n
  {
    var args := Pointers(ps);
    if n > 0 {
      PointersBackToBack(ps, n - 1);
      EndOfSnoc(0, args, n - 1);
      PointerArg(ps, n - 1);
    } else {
      assert args[..0] == [];
    }
    if n < |ps| {
      PointerArg(ps, n);
      AlignedAlready(n, PTR_SIZE);
    }
  }

  lemma PointerArg(ps: seq<nat>, n: nat)
    requires n < |ps|
    ensures |Pointers(ps)[n].data| == 8 && Pointers(ps)[n].align == PTR_SIZE
  {}

  lemma AlignedAlready(n: nat, align: nat)
    requires align > 0
    ensures AlignUp(n * align, align) == n * align
  {
    DivUnique(n * align + align - 1, align, n, align - 1);
  }

  // ---- a loop of KernargBuffer calls ----

  lemma NoPointers(buf: seq<Byte>, ps: seq<nat>)
    ensures EndOf(0, Pointers(ps[..0])) == 0 && Pack(buf, 0, Pointers(ps[..0])) == buf
  {
    assert Pointers(ps[..0]) == [];
  }

  /** What one more call does, and that it fits. */
  lemma NextPointer(buf: seq<Byte>, ps: seq<nat>, n: nat)
    requires n < |ps| && 8 * |ps| <= |buf|
    ensures AlignUp(8 * n, PTR_SIZE) == 8 * n
    ensures EndOf(0, Pointers(ps[..n])) == 8 * n == EndOf(8 * n, [Pointer(ps[n])]) - 8
    ensures EndOf(0, Pointers(ps[..n + 1])) == 8 * (n + 1)
    ensures Pack(buf, 0, Pointers(ps[..n + 1])) == Pack(Pack(buf, 0, Pointers(ps[..n])), 8 * n, [Pointer(ps[n])])
  {
    var args := Pointers(ps[..n]);
    EndOfPointers(ps, n);
    AlignedAlready(n, PTR_SIZE);
    PointersSnoc(ps, n);
    EndOfOne(8 * n, Pointer(ps[n]));
    EndSnoc(0, args, Pointer(ps[n]));
    PackSnoc(buf, 0, args, Pointer(ps[n]));
  }

  lemma EndOfPointers(ps: seq<nat>, n: nat)
    requires n <= |ps|
    ensures EndOf(0, Pointers(ps[..n])) == 8 * n
  {
    PointersBackToBack(ps, n);
    assert Pointers(ps[..n]) == Pointers(ps)[..n];
  }

  lemma EndOfOne(off: nat, arg: Arg)
    requires arg.align > 0
    ensures EndOf(off, [arg]) == AlignUp(off, arg.align) + |arg.data|
  {}

  /** A memory block holding the packed pointers delivers pointer n as a load at its place. */
  lemma PointerLoads(m: Mem, k: nat, buf: seq<Byte>, ps: seq<nat>, n: nat, block: seq<Byte>)
    requires n < |ps| && ps[n] < Pow2(8 * PTR_SIZE)
    requires EndOf(0, Pointers(ps)) <= |buf| && block == Pack(buf, 0, Pointers(ps)) && Holds(m, k, block)
    ensures Mapped(m, k + 8 * n, PTR_SIZE) && Load(m, k + 8 * n, PTR_SIZE) == ps[n]
  {
    PointersBackToBack(ps, n);
    PointerData(ps, n);
    NumberLoads(m, k, buf, Pointers(ps), n, 8 * n, ps[n], PTR_SIZE);
  }

  lemma PointerData(ps: seq<nat>, n: nat)
    requires n < |ps|
    ensures Pointers(ps)[n].data == Bytes(ps[n], PTR_SIZE)
  {}

  /** An argument that is the bytes of a number is loaded as that number. */
  lemma NumberLoads(m: Mem, k: nat, buf: seq<Byte>, args: seq<Arg>, n: nat, s: nat, w: nat, size: nat)
    requires ArgsOk(args) && n < |args| && EndOf(0, args) <= |buf| && Holds(m, k, Pack(buf, 0, args))
    requires StartOf(0, args, n) == s && args[n].data == Bytes(w, size) && w < Pow2(8 * size)
    ensures Mapped(m, k + s, size) && Load(m, k + s, size) == w
  {
    ArgReadsBack(buf, 0, args, n);
    SliceHolds(m, k, Pack(buf, 0, args), s, Bytes(w, size));
    LoadBytes(m, k + s, size, w);
  }
}
