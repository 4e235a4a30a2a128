/** amdphdrs: the two passes over an object file's sections that count and fill program headers. */
module ProgramHeaders {

  datatype Name = HsaText | HsaDataGlobalProgram | Other(name: string)

  /** The fields the tool reads or writes. */
  datatype Section = Section(name: Name, size: nat, offset: nat, addr: nat)

  datatype Header = Header(kind: nat, offset: nat, vaddr: nat, paddr: nat, filesz: nat, memsz: nat, flags: nat, align: nat)

  const BASE := 0x10000

  predicate Loaded(s: Section) { !s.name.Other? }

  /** Program header index of a loaded section. */
  function Slot(s: Section): nat
    requires Loaded(s)
  {
    if s.name.HsaText? then 0 else 1
  }

  function HeaderOf(s: Section, at: nat): Header
    requires Loaded(s)
  {
    if s.name.HsaText? then Header(0x6000_0003, s.offset, at, at, s.size, s.size, 5, 0x100)
    else Header(0x6000_0000, s.offset, at, at, s.size, s.size, 6, 4)
  }

  /** Total size of the loaded sections. */
  function LoadedSize(ss: seq<Section>): nat {
    if ss == [] then 0 else LoadedSize(ss[..|ss| - 1]) + (if Loaded(ss[|ss| - 1]) then ss[|ss| - 1].size else 0)
  }

  /** Where section i is placed: after all loaded sections before it. */
  function Placed(ss: seq<Section>, i: nat): Section
    requires i < |ss|
  {
    if Loaded(ss[i]) then ss[i].(addr := BASE + LoadedSize(ss[..i])) else ss[i]
  }

  predicate HasData(ss: seq<Section>) { exists i :: 0 <= i < |ss| && ss[i].name.HsaDataGlobalProgram? }

  /** First pass: two program headers when there is a data section, else one. */
  method CountHeaders(ss: seq<Section>) returns (count: nat)
    ensures count == if HasData(ss) then 2 else 1
  {
    var hasData := false;
    for i := 0 to |ss|
      invariant hasData <==> exists k :: 0 <= k < i && ss[k].name.HsaDataGlobalProgram?
    {
      if ss[i].name.HsaDataGlobalProgram? { hasData := true; }
    }
    count := if hasData then 2 else 1;
  }

  /** Header k mirrors the last section of its name, if there is one. */
  predicate Mirrors(ss: seq<Section>, headers: seq<Header>, k: nat)
    requires k < |headers|
  {
    forall i :: 0 <= i < |ss| && Loaded(ss[i]) && Slot(ss[i]) == k
                && (forall j :: i < j < |ss| ==> ss[j].name != ss[i].name) ==>
      headers[k] == HeaderOf(ss[i], BASE + LoadedSize(ss[..i]))
  }

  predicate AllMirror(ss: seq<Section>, headers: seq<Header>) {
    forall k :: 0 <= k < |headers| ==> Mirrors(ss, headers, k)
  }

  lemma LoadedSizeSnoc(ss: seq<Section>, i: nat)
    requires i < |ss|
    ensures LoadedSize(ss[..i + 1]) == LoadedSize(ss[..i]) + if Loaded(ss[i]) then ss[i].size else 0
  {
    assert ss[..i + 1][..i] == ss[..i];
  }

  /** Second pass: assigns addresses section by section and fills the headers the first pass made room for.
      Headers start out as whatever the library put there. */
  method Layout(ss: array<Section>, headers: array<Header>)
    requires headers.Length == if HasData(ss[..]) then 2 else 1
    modifies ss, headers
    ensures forall i :: 0 <= i < ss.Length ==> ss[i] == Placed(old(ss[..]), i)
    ensures AllMirror(old(ss[..]), headers[..])
    ensures forall i :: 0 <= i < ss.Length ==>
              ss[i].name == old(ss[i].name) && ss[i].size == old(ss[i].size) && ss[i].offset == old(ss[i].offset)
    ensures forall i :: 0 <= i < ss.Length && ss[i].name.Other? ==> ss[i] == old(ss[i])
    ensures (forall i :: 0 <= i < ss.Length ==> !ss[i].name.HsaText?) ==> headers[0] == old(headers[0])
    ensures forall i :: 0 <= i < ss.Length && LastOfName(ss[..], i) ==>
              && (ss[i].name.HsaText? ==> CodeHeader(headers[0], ss[i]))
              && (ss[i].name.HsaDataGlobalProgram? ==> headers.Length == 2 && DataHeader(headers[1], ss[i]))
  {
    ghost var ss0 := ss[..];
    var virtualAddr := BASE;
    for i := 0 to ss.Length
      invariant virtualAddr == BASE + LoadedSize(ss0[..i])
      invariant forall k :: 0 <= k < i ==> ss[k] == Placed(ss0, k)
      invariant forall k :: i <= k < ss.Length ==> ss[k] == ss0[k]
      invariant AllMirror(ss0[..i], headers[..])
      invariant (forall k :: 0 <= k < i ==> !ss0[k].name.HsaText?) ==> headers[0] == old(headers[0])
    {
      ghost var before := headers[..];
      var s := ss[i];
      if Loaded(s) {
        assert Slot(s) < headers.Length by {
          if s.name.HsaDataGlobalProgram? { assert ss0[i].name.HsaDataGlobalProgram?; }
        }
        ss[i] := s.(addr := virtualAddr);
        headers[Slot(s)] := HeaderOf(s, virtualAddr);
        virtualAddr := virtualAddr + s.size;
      }
      LoadedSizeSnoc(ss0, i);
      AllMirrorStep(ss0, i, before, headers[..]);
    }
    assert ss0[..ss.Length] == ss0;
    forall i | 0 <= i < ss.Length && LastOfName(ss[..], i) && Loaded(ss[i])
      ensures Slot(ss[i]) < headers.Length && Describes(headers[Slot(ss[i])], ss[i])
    {
      SlotExists(ss0, i, headers.Length);
      HeaderDescribes(ss0, headers[..], ss[..], i);
    }
  }

  // ---- what the headers say ----

  predicate LastOfName(ss: seq<Section>, i: nat) {
    i < |ss| && forall j :: i < j < |ss| ==> ss[j].name != ss[i].name
  }

  /** A header shows the bytes of the file that are the section's, at the address the section was given. */
  predicate Shows(h: Header, s: Section) {
    h.offset == s.offset && h.vaddr == s.addr && h.paddr == s.addr && h.filesz == s.size && h.memsz == s.size
  }

  /** The bits of the segment flags. */
  predicate Executable(h: Header) { h.flags % 2 == 1 }
  predicate Writable(h: Header) { h.flags / 2 % 2 == 1 }
  predicate Readable(h: Header) { h.flags / 4 % 2 == 1 }

  /** An AMDGPU code object segment: read and executed, never written. */
  predicate CodeHeader(h: Header, s: Section) {
    && Shows(h, s) && h.kind == 0x6000_0003 && h.align == 256
    && h.flags < 8 && Readable(h) && Executable(h) && !Writable(h)
  }

  /** A global data segment: read and written, never executed. */
  predicate DataHeader(h: Header, s: Section) {
    && Shows(h, s) && h.kind == 0x6000_0000 && h.align == 4
    && h.flags < 8 && Readable(h) && Writable(h) && !Executable(h)
  }

  predicate Describes(h: Header, s: Section) {
    (s.name.HsaText? ==> CodeHeader(h, s)) && (s.name.HsaDataGlobalProgram? ==> DataHeader(h, s))
  }

  lemma SlotExists(ss: seq<Section>, i: nat, n: nat)
    requires i < |ss| && Loaded(ss[i]) && n == if HasData(ss) then 2 else 1
    ensures Slot(ss[i]) < n
  {}

  lemma HeaderDescribes(ss: seq<Section>, headers: seq<Header>, after: seq<Section>, i: nat)
    requires |after| == |ss| && forall k :: 0 <= k < |ss| ==> after[k] == Placed(ss, k)
    requires AllMirror(ss, headers) && LastOfName(after, i) && Loaded(after[i]) && Slot(after[i]) < |headers|
    ensures Describes(headers[Slot(after[i])], after[i])
  {
    assert after[i] == Placed(ss, i);
    forall j | i < j < |ss|
      ensures ss[j].name != ss[i].name
    {
      assert after[j] == Placed(ss, j);
    }
    assert Mirrors(ss, headers, Slot(ss[i]));
  }

  lemma MirrorsStep(ss: seq<Section>, n: nat, before: seq<Header>, after: seq<Header>, k: nat)
    requires n < |ss| && |before| == |after| && k < |after|
    requires Mirrors(ss[..n], before, k)
    requires after[k] == if Loaded(ss[n]) && Slot(ss[n]) == k then HeaderOf(ss[n], BASE + LoadedSize(ss[..n])) else before[k]
    ensures Mirrors(ss[..n + 1], after, k)
  {
    var t := ss[..n + 1];
    forall i | 0 <= i < |t| && Loaded(t[i]) && Slot(t[i]) == k && (forall j :: i < j < |t| ==> t[j].name != t[i].name)
      ensures after[k] == HeaderOf(t[i], BASE + LoadedSize(t[..i]))
    {
      assert t[..i] == ss[..i];
      if i < n {
        assert t[n].name != t[i].name;
        assert ss[..n][i] == t[i] && ss[..n][..i] == ss[..i];
        assert forall j :: i < j < n ==> ss[..n][j] == t[j];
      }
    }
  }

  lemma AllMirrorStep(ss: seq<Section>, n: nat, before: seq<Header>, after: seq<Header>)
    requires n < |ss| && |before| == |after| && AllMirror(ss[..n], before)
    requires forall k :: 0 <= k < |after| ==>
               after[k] == if Loaded(ss[n]) && Slot(ss[n]) == k then HeaderOf(ss[n], BASE + LoadedSize(ss[..n])) else before[k]
    ensures AllMirror(ss[..n + 1], after)
  {
    var t := ss[..n + 1];
    forall k | 0 <= k < |after|
      ensures Mirrors(t, after, k)
    {
      MirrorsStep(ss, n, before, after, k);
    }
  }

  // ---- tiling ----

  lemma {:induction false} LoadedSizeMono(ss: seq<Section>, i: nat, j: nat)
    requires i <= j <= |ss|
    ensures LoadedSize(ss[..i]) <= LoadedSize(ss[..j])
    decreases j
  {
    if i < j {
      LoadedSizeMono(ss, i, j - 1);
      LoadedSizeSnoc(ss, j - 1);
    }
  }

  lemma EndsBefore(ss: seq<Section>, i: nat, j: nat)
    requires i < j <= |ss| && Loaded(ss[i])
    ensures LoadedSize(ss[..i]) + ss[i].size <= LoadedSize(ss[..j])
  {
    LoadedSizeSnoc(ss, i);
    LoadedSizeMono(ss, i + 1, j);
  }

  /** Loaded sections lie in [0x10000, 0x10000 + total size), in list order, and do not overlap. */
  lemma InOrderApart(ss: seq<Section>, i: nat, j: nat)
    requires i < j < |ss| && Loaded(ss[i]) && Loaded(ss[j])
    ensures 0x10000 <= Placed(ss, i).addr
    ensures Placed(ss, i).addr + ss[i].size <= Placed(ss, j).addr
    ensures Placed(ss, j).addr + ss[j].size <= 0x10000 + LoadedSize(ss)
  {
    EndsBefore(ss, i, j);
    EndsBefore(ss, j, |ss|);
    assert ss[..|ss|] == ss;
  }

  /** No gap: every address of that range belongs to a loaded section. */
  lemma {:induction false} NoGap(ss: seq<Section>, a: nat, n: nat) returns (i: nat)
    requires n <= |ss| && 0x10000 <= a < 0x10000 + LoadedSize(ss[..n])
    ensures i < n && Loaded(ss[i]) && Placed(ss, i).addr <= a < Placed(ss, i).addr + ss[i].size
    decreases n
  {
    assert n > 0;
    LoadedSizeSnoc(ss, n - 1);
    if a >= BASE + LoadedSize(ss[..n - 1]) { i := n - 1; } else { i := NoGap(ss, a, n - 1); }
  }
}
