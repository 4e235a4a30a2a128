/** What every run of the allocator keeps: disjoint live blocks, alignment, occupancy and LDS padding. */
module GprSafety {
  import opened GprAlloc
  import Bits

  // ---- ghost ownership: the symbols keep only the bases ----

  datatype Class = SGPR | VGPR | LDS
  datatype Block = Block(cls: Class, base: int, len: nat, align: nat)
  type Owners = map<string, Block>

  datatype Config = Config(s: State, live: Owners)

  function Next(s: State, c: Class): int {
    match c case SGPR => s.nextS case VGPR => s.nextV case LDS => s.nextL
  }

  function Avail(s: State, c: Class): int {
    match c case SGPR => s.availS case VGPR => s.availV case LDS => s.availL
  }

  /** The block an allocating command hands to a name. */
  function Handed(s: State, c: Cmd): Block
    requires c.VAlloc? || c.SAlloc? || c.LdsAlloc? || c.SAllocOnce?
  {
    match c
    case VAlloc(_, n) => Block(VGPR, s.nextV, n, 1)
    case SAlloc(_, n, a) => Block(SGPR, s.nextS, n, EffectiveAlign(n, a))
    case SAllocOnce(_, n, a) => Block(SGPR, s.nextS, n, EffectiveAlign(n, a))
    case LdsAlloc(_, n, a) => Block(LDS, LdsBase(s.nextL, a), n, a)
  }

  predicate Allocates(s: State, c: Cmd) {
    c.VAlloc? || c.SAlloc? || c.LdsAlloc? || (c.SAllocOnce? && c.name !in s.once)
  }

  function NextLive(c: Config, cmd: Cmd): Owners {
    if Allocates(c.s, cmd) then c.live[cmd.name := Handed(c.s, cmd)]
    else
      match cmd
      case Begin => map[]
      case Invalidate(x) => c.live - {x}
      case Reuse(x, y) => if x in c.live && x != y then (c.live - {x})[y := c.live[x]] else c.live - {x, y}
      case _ => c.live
  }

  function Next1(c: Config, cmd: Cmd): Config { Config(Step(c.s, cmd), NextLive(c, cmd)) }

  function RunAll(c: Config, cmds: seq<Cmd>): Config
    decreases |cmds|
  {
    if cmds == [] then c else RunAll(Next1(c, cmds[0]), cmds[1..])
  }

  // ---- safety ----

  predicate Apart(a: Block, b: Block) {
    a.cls != b.cls || a.len == 0 || b.len == 0 || a.base + a.len <= b.base || b.base + b.len <= a.base
  }

  /** Live names own pairwise disjoint blocks. */
  predicate NoOverlap(live: Owners) {
    forall x, y :: x in live && y in live && x != y ==> Apart(live[x], live[y])
  }

  /** A live name has its block's base as its value; the block is aligned and lies below the limit. */
  predicate Placed(s: State, x: string, b: Block) {
    && x in s.symbols && s.symbols[x] == b.base
    && b.align > 0 && b.base % b.align == 0
    && (b.len > 0 ==> 0 <= b.base && b.base + b.len < Avail(s, b.cls) && b.base + b.len <= Next(s, b.cls))
  }

  predicate Safe(c: Config) {
    && NoOverlap(c.live)
    && forall x :: x in c.live ==> Placed(c.s, x, c.live[x])
  }

  predicate Clear(live: Owners, cls: Class, at: int) {
    forall x :: x in live && live[x].cls == cls && live[x].len > 0 ==> live[x].base + live[x].len <= at
  }

  /** A `*_ALLOC_FROM` that does not go back into a live block. */
  predicate FromOk(c: Config, cmd: Cmd) {
    && (cmd.VFrom? ==> Clear(c.live, VGPR, cmd.at))
    && (cmd.SFrom? ==> Clear(c.live, SGPR, cmd.at))
    && (cmd.LFrom? ==> Clear(c.live, LDS, cmd.at))
  }

  predicate FromsOk(c: Config, cmds: seq<Cmd>)
    decreases |cmds|
  {
    cmds == [] || (FromOk(c, cmds[0]) && FromsOk(Next1(c, cmds[0]), cmds[1..]))
  }

  lemma FailedStays(s: State, c: Cmd)
    requires s.failed
    ensures Step(s, c).failed
  {}

  lemma {:induction false} FailedSticks(c: Config, cmds: seq<Cmd>)
    requires c.s.failed
    ensures RunAll(c, cmds).s.failed
    decreases |cmds|
  {
    if cmds != [] {
      FailedStays(c.s, cmds[0]);
      FailedSticks(Next1(c, cmds[0]), cmds[1..]);
    }
  }

  predicate Bounds(s: State) { 0 <= s.nextV && 0 <= s.nextS && 0 <= s.nextL }

  lemma LdsRoundUp(at: int, align: nat)
    requires at >= 0 && align > 0
    ensures LdsBase(at, align) % align == 0 && at <= LdsBase(at, align) < at + align
  {
    var q, r := at / align, at % align;
    assert at == q * align + r;
    if r != 0 {
      Bits.DivUnique((q + 1) * align, align, q + 1, 0);
      Bits.MulAdd(q, 1, align);
    }
  }

  lemma AllocationKeepsSafe(c: Config, cmd: Cmd)
    requires Allocates(c.s, cmd) && Safe(c) && Bounds(c.s) && !Step(c.s, cmd).failed
    ensures Safe(Next1(c, cmd)) && Bounds(Step(c.s, cmd))
  {
    if cmd.LdsAlloc? && cmd.unit > 0 { LdsRoundUp(c.s.nextL, cmd.unit); }
    var b := Handed(c.s, cmd);
    var live := NextLive(c, cmd);
    assert Placed(Step(c.s, cmd), cmd.name, b);
    forall x | x in live && x != cmd.name
      ensures Placed(Step(c.s, cmd), x, live[x]) && Apart(live[x], b) && Apart(b, live[x])
    {
      assert Placed(c.s, x, c.live[x]);
    }
  }

  /** A block stays placed, under its name or the name it moves to. */
  lemma StaysPlaced(c: Config, cmd: Cmd, x: string)
    requires !Allocates(c.s, cmd) && Safe(c) && FromOk(c, cmd) && !Step(c.s, cmd).failed
    requires x in NextLive(c, cmd)
    ensures Placed(Step(c.s, cmd), x, NextLive(c, cmd)[x])
  {
    if cmd.Reuse? {
      MovedPlaced(c, cmd, x);
    } else {
      SameNamePlaced(c, cmd, x);
    }
  }

  lemma MovedPlaced(c: Config, cmd: Cmd, x: string)
    requires cmd.Reuse? && Safe(c) && !Step(c.s, cmd).failed && x in NextLive(c, cmd)
    ensures Placed(Step(c.s, cmd), x, NextLive(c, cmd)[x])
  {
    var from := if x == cmd.new' then cmd.old' else x;
    assert Placed(c.s, from, c.live[from]);
  }

  lemma SameNamePlaced(c: Config, cmd: Cmd, x: string)
    requires !Allocates(c.s, cmd) && !cmd.Reuse? && Safe(c) && FromOk(c, cmd) && !Step(c.s, cmd).failed
    requires x in NextLive(c, cmd)
    ensures Placed(Step(c.s, cmd), x, NextLive(c, cmd)[x])
  {
    assert Placed(c.s, x, c.live[x]);
  }

  lemma OtherKeepsSafe(c: Config, cmd: Cmd)
    requires !Allocates(c.s, cmd) && Safe(c) && Bounds(c.s) && FromOk(c, cmd) && !Step(c.s, cmd).failed
    ensures Safe(Next1(c, cmd)) && Bounds(Step(c.s, cmd))
  {
    forall x | x in NextLive(c, cmd)
      ensures Placed(Step(c.s, cmd), x, NextLive(c, cmd)[x])
    {
      StaysPlaced(c, cmd, x);
    }
    if cmd.Reuse? { MoveKeepsApart(c.live, cmd.old', cmd.new'); }
  }

  lemma MoveKeepsApart(live: Owners, x: string, y: string)
    requires NoOverlap(live)
    ensures NoOverlap(if x in live && x != y then (live - {x})[y := live[x]] else live - {x, y})
  {}

  /** In every error-free run with harmless `*_ALLOC_FROM`s, started by `.GPR_ALLOC_BEGIN`, live names of a
      class own disjoint, aligned blocks inside [0, available). */
  lemma {:induction false} RunsAreSafe(c: Config, cmds: seq<Cmd>)
    requires Safe(c) && Bounds(c.s) && FromsOk(c, cmds) && !RunAll(c, cmds).s.failed
    ensures Safe(RunAll(c, cmds))
    decreases |cmds|
  {
    if cmds != [] {
      var c' := Next1(c, cmds[0]);
      if c'.s.failed { FailedSticks(c', cmds[1..]); }
      if Allocates(c.s, cmds[0]) { AllocationKeepsSafe(c, cmds[0]); } else { OtherKeepsSafe(c, cmds[0]); }
      RunsAreSafe(c', cmds[1..]);
    }
  }

  /** What every macro keeps while no error is raised. */
  predicate Sound(c: Config) { Safe(c) && Bounds(c.s) && LimitsMatch(c.s) }

  lemma StepKeepsSound(c: Config, cmd: Cmd)
    requires Sound(c) && FromOk(c, cmd) && !Step(c.s, cmd).failed
    ensures Sound(Next1(c, cmd))
  {
    if Allocates(c.s, cmd) { AllocationKeepsSafe(c, cmd); } else { OtherKeepsSafe(c, cmd); }
    LimitsStep(c.s, cmd);
  }

  lemma KernelIsSafe(s: State, live: Owners, cmds: seq<Cmd>)
    requires FromsOk(Next1(Config(s, live), Begin), cmds)
    requires !RunAll(Config(s, live), [Begin] + cmds).s.failed
    ensures Safe(RunAll(Config(s, live), [Begin] + cmds))
  {
    assert ([Begin] + cmds)[1..] == cmds;
    RunsAreSafe(Next1(Config(s, live), Begin), cmds);
  }

  function From(cls: Class, at: nat): Cmd {
    match cls case SGPR => SFrom(at) case VGPR => VFrom(at) case LDS => LFrom(at)
  }

  /** An allocation without alignment demands. */
  function Alloc(cls: Class, name: string, n: nat): Cmd {
    match cls case SGPR => SAlloc(name, n, 1) case VGPR => VAlloc(name, n) case LDS => LdsAlloc(name, n, 1)
  }

  // ---- when there is an error, and what is handed out ----

  /** An error appears exactly when the new block would not end below the limit, or is not aligned; a begin and the
      other commands without a check never raise one. */
  lemma FailsExactly(s: State, c: Cmd)
    requires !s.failed
    ensures Step(s, c).failed <==>
              match c
              case VAlloc(_, n) => s.nextV + n >= s.availV
              case SAlloc(_, n, a) => s.nextS + n >= s.availS || BadBase(s.nextS, n, a)
              case SAllocOnce(x, n, a) => x !in s.once && (s.nextS + n >= s.availS || BadBase(s.nextS, n, a))
              case LdsAlloc(_, n, a) => a == 0 || LdsBase(s.nextL, a) + n >= s.availL
              case SetMin(w) => w > 10 || w > s.maxWaves || s.nextV >= TableV(w) || s.nextS >= TableS(w)
              case SetMax(w) => w < 1 || s.minWaves > w
              case End => s.guard == 1 || s.nextV >= s.availV || s.nextS >= s.availS || s.nextL >= s.availL
              case Reuse(x, _) => x !in s.symbols
              case _ => false
  {
    if c.SAlloc? { BadBaseExact(s.nextS, c.count, c.align); }
    if c.SAllocOnce? { BadBaseExact(s.nextS, c.count, c.align); }
  }

  /** A base that n SGPRs must not have: off the demanded alignment or, without one, off n for up to four registers
      and off four for more. An alignment of zero has no good base. */
  predicate BadBase(at: int, n: nat, align: int) {
    if align > 0 then at % align != 0
    else if n >= 4 then at % 4 != 0
    else n == 0 || (n == 2 && at % 2 == 1) || (n == 3 && at % 3 != 0)
  }

  lemma BadBaseExact(at: int, n: nat, align: int)
    ensures Misaligned(at, EffectiveAlign(n, align)) <==> BadBase(at, n, align)
  {}

  /** What an allocation without an error hands out: a block of the size asked for at the value of its name, on
      an aligned base, at the pointer or, for LDS, less than one alignment behind it. The pointer goes to its end. */
  lemma HandedOut(c: Config, cmd: Cmd)
    requires Sound(c) && Allocates(c.s, cmd) && !Step(c.s, cmd).failed
    ensures var c' := Next1(c, cmd);
            && cmd.name in c'.live && cmd.name in c'.s.symbols
            && var b := c'.live[cmd.name];
            && b.base == c'.s.symbols[cmd.name] && b.base + b.len == Next(c'.s, b.cls)
            && match cmd
               case VAlloc(_, n) => b.cls == VGPR && b.len == n && b.base == c.s.nextV
               case LdsAlloc(_, n, a) =>
                 b.cls == LDS && b.len == n && b.base % a == 0 && c.s.nextL <= b.base < c.s.nextL + a
               case SAlloc(_, n, a) => HandedSgprs(c.s, b, n, a)
               case SAllocOnce(_, n, a) => HandedSgprs(c.s, b, n, a)
               case _ => false
  {
    FailsExactly(c.s, cmd);
    if cmd.LdsAlloc? { LdsRoundUp(c.s.nextL, cmd.unit); }
  }

  predicate HandedSgprs(s: State, b: Block, n: nat, align: int) {
    && b.cls == SGPR && b.len == n && b.base == s.nextS
    && (if align > 0 then b.base % align == 0
        else n > 0 && if n <= 4 then b.base % n == 0 else b.base % 4 == 0)
  }

  /** Registers asked for in a run, allocate-once names counted the first time. */
  function Asked(cls: Class, cmds: seq<Cmd>, once: set<string>): nat
    decreases |cmds|
  {
    if cmds == [] then 0
    else
      match cmds[0]
      case VAlloc(_, n) => (if cls == VGPR then n else 0) + Asked(cls, cmds[1..], once)
      case SAlloc(_, n, _) => (if cls == SGPR then n else 0) + Asked(cls, cmds[1..], once)
      case SAllocOnce(x, n, _) =>
        (if cls == SGPR && x !in once then n else 0) + Asked(cls, cmds[1..], once + {x})
      case _ => Asked(cls, cmds[1..], once)
  }

  /** No register is skipped: without a new begin or `*_ALLOC_FROM` the pointers advance by what was asked for. */
  lemma {:induction false} NoneSkipped(c: Config, cmds: seq<Cmd>)
    requires forall i :: 0 <= i < |cmds| ==> !cmds[i].Begin? && !cmds[i].VFrom? && !cmds[i].SFrom?
    ensures RunAll(c, cmds).s.nextV == c.s.nextV + Asked(VGPR, cmds, c.s.once)
    ensures RunAll(c, cmds).s.nextS == c.s.nextS + Asked(SGPR, cmds, c.s.once)
    decreases |cmds|
  {
    if cmds != [] {
      NoneSkipped(Next1(c, cmds[0]), cmds[1..]);
      PointersStep(c.s, cmds[0], cmds[1..]);
    }
  }

  lemma PointersStep(s: State, c: Cmd, rest: seq<Cmd>)
    requires !c.Begin? && !c.VFrom? && !c.SFrom?
    ensures Step(s, c).nextV == s.nextV + Asked(VGPR, [c] + rest, s.once) - Asked(VGPR, rest, Step(s, c).once)
    ensures Step(s, c).nextS == s.nextS + Asked(SGPR, [c] + rest, s.once) - Asked(SGPR, rest, Step(s, c).once)
  {
    assert ([c] + rest)[1..] == rest;
    if c.SAllocOnce? && c.name in s.once { assert s.once + {c.name} == s.once; }
    OnceStep(s, c);
  }

  /** Only an allocate-once adds a guard. */
  lemma OnceStep(s: State, c: Cmd)
    ensures Step(s, c).once == if c.SAllocOnce? then s.once + {c.name} else s.once
  {}

  /** The SGPRs reserved in a kernel: each kind at its own command, and once only. */
  lemma {:induction false} ReservedInRun(c: Config, cmds: seq<Cmd>)
    requires forall i :: 0 <= i < |cmds| ==> !cmds[i].Begin?
    ensures var s := RunAll(c, cmds).s;
            && s.reserveVcc == (if ReserveVcc in cmds then 1 else c.s.reserveVcc)
            && s.reserveXnack == (if ReserveXnack in cmds then 1 else c.s.reserveXnack)
            && s.reserveFlat == (if ReserveFlat in cmds then 1 else c.s.reserveFlat)
    decreases |cmds|
  {
    if cmds != [] {
      ReservedInRun(Next1(c, cmds[0]), cmds[1..]);
      ReservedStep(c.s, cmds[0]);
      InRest(cmds, ReserveVcc);
      InRest(cmds, ReserveXnack);
      InRest(cmds, ReserveFlat);
    }
  }

  lemma InRest(cmds: seq<Cmd>, cmd: Cmd)
    requires cmds != []
    ensures cmd in cmds <==> cmd == cmds[0] || cmd in cmds[1..]
  {
    assert cmds == [cmds[0]] + cmds[1..];
  }

  lemma ReservedStep(s: State, c: Cmd)
    requires !c.Begin?
    ensures Step(s, c).reserveVcc == if c.ReserveVcc? then 1 else s.reserveVcc
    ensures Step(s, c).reserveXnack == if c.ReserveXnack? then 1 else s.reserveXnack
    ensures Step(s, c).reserveFlat == if c.ReserveFlat? then 1 else s.reserveFlat
    ensures s.guard == 1 ==> Step(s, c).guard == 1
  {}

  /** A second end without a begin in between is an error. */
  lemma {:induction false} UnpairedEnd(c: Config, cmds: seq<Cmd>)
    requires c.s.guard == 1 && forall i :: 0 <= i < |cmds| ==> !cmds[i].Begin?
    ensures Step(RunAll(c, cmds).s, End).failed
    decreases |cmds|
  {
    if cmds != [] {
      ReservedStep(c.s, cmds[0]);
      UnpairedEnd(Next1(c, cmds[0]), cmds[1..]);
    }
  }

  /** Going back is harmless for every later allocation exactly when it does not enter a live block. */
  lemma FromExact(c: Config, cls: Class, at: nat, fresh': string)
    requires Safe(c) && !c.s.failed && fresh' !in c.live
    ensures (forall n: nat :: !Step(Step(c.s, From(cls, at)), Alloc(cls, fresh', n)).failed ==>
               NoOverlap(Next1(Next1(c, From(cls, at)), Alloc(cls, fresh', n)).live))
            <==> Clear(c.live, cls, at)
  {
    if Clear(c.live, cls, at) {
      forall n: nat
        ensures NoOverlap(Next1(Next1(c, From(cls, at)), Alloc(cls, fresh', n)).live)
      {
        AllocatedAt(c, cls, at, fresh', n);
      }
    } else {
      var x :| x in c.live && c.live[x].cls == cls && c.live[x].len > 0 && c.live[x].base + c.live[x].len > at;
      var b := c.live[x];
      assert Placed(c.s, x, b);
      var n: nat := b.base + b.len - at;
      AllocatedAt(c, cls, at, fresh', n);
      var live := Next1(Next1(c, From(cls, at)), Alloc(cls, fresh', n)).live;
      assert live[x] == b && live[fresh'] == Block(cls, at, n, 1);
      assert !Apart(live[x], live[fresh']);
      assert !Step(Step(c.s, From(cls, at)), Alloc(cls, fresh', n)).failed;
    }
  }

  /** After going to `at`, an allocation that ends below the limit succeeds and owns [at, at + n). */
  lemma AllocatedAt(c: Config, cls: Class, at: nat, name: string, n: nat)
    requires !c.s.failed && name !in c.live
    ensures Next1(Next1(c, From(cls, at)), Alloc(cls, name, n)).live == c.live[name := Block(cls, at, n, 1)]
    ensures at + n < Avail(c.s, cls) ==> !Step(Step(c.s, From(cls, at)), Alloc(cls, name, n)).failed
  {
    assert at % 1 == 0;
  }

  /** Reuse between distinct names: the new name owns the old name's block, the old one nothing, every
      other name what it owned. */
  lemma ReuseMoves(c: Config, x: string, y: string)
    requires x != y && x in c.live && Safe(c)
    ensures var c' := Next1(c, Reuse(x, y));
            && y in c'.live && c'.live[y] == c.live[x] && c'.s.symbols[y] == c.live[x].base
            && x !in c'.live && c'.s.symbols[x] == 0x7fff_ffff
            && forall z :: z != x && z != y ==> (z in c'.live <==> z in c.live) && (z in c.live ==> c'.live[z] == c.live[z])
  {
    assert Placed(c.s, x, c.live[x]);
  }

  // ---- allocate once ----

  lemma {:induction false} GuardStays(c: Config, cmds: seq<Cmd>, x: string)
    requires x in c.s.once
    ensures x in RunAll(c, cmds).s.once
    decreases |cmds|
  {
    if cmds != [] {
      GuardStep(c.s, cmds[0], x);
      GuardStays(Next1(c, cmds[0]), cmds[1..], x);
    }
  }

  lemma GuardStep(s: State, c: Cmd, x: string)
    requires x in s.once
    ensures x in Step(s, c).once
  {}

  /** After the first `.SGPR_ALLOC_ONCE` of a name, and whatever ran since, another one changes nothing. */
  lemma OnceIsIdempotent(c: Config, x: string, n: nat, a: int, cmds: seq<Cmd>, n': nat, a': int)
    ensures var c' := RunAll(Next1(c, SAllocOnce(x, n, a)), cmds);
            Next1(c', SAllocOnce(x, n', a')) == c'
  {
    GuardStays(Next1(c, SAllocOnce(x, n, a)), cmds, x);
  }

  /** The guards survive `.GPR_ALLOC_BEGIN`: in the next kernel the name gets a register exactly when it
      was never allocated this way before. */
  lemma OnceInNextKernel(c: Config, x: string, n: nat, a: int)
    ensures x in Next1(Next1(c, Begin), SAllocOnce(x, n, a)).live <==> x !in c.s.once
  {}

  lemma {:induction false} RunAppend(c: Config, a: seq<Cmd>, b: seq<Cmd>)
    ensures RunAll(c, a + b) == RunAll(RunAll(c, a), b)
    decreases |a|
  {
    if a == [] {
      assert a + b == b;
    } else {
      assert (a + b)[1..] == a[1..] + b;
      RunAppend(Next1(c, a[0]), a[1..], b);
    }
  }

  lemma RunThree(c: Config, a: Cmd, b: Cmd, d: Cmd)
    ensures RunAll(c, [a, b, d]) == Next1(Next1(Next1(c, a), b), d)
  {
    assert [a, b, d][1..] == [b, d] && [b, d][1..] == [d] && [d][1..] == [];
    var c1, c2 := Next1(c, a), Next1(Next1(c, a), b);
    assert RunAll(c2, [d]) == Next1(c2, d) by { assert RunAll(Next1(c2, d), []) == Next1(c2, d); }
    assert RunAll(c1, [b, d]) == RunAll(c2, [d]);
  }

  /** So a second kernel can end without an error although the register it thinks it has allocated once belongs to
      another name. */
  lemma OnceStale(s: State, live: Owners, x: string, y: string)
    requires !s.failed && x !in s.once && x != y
    ensures var c := RunAll(Config(s, live),
                            [Begin, SAllocOnce(x, 1, 0), End] + [Begin, SAlloc(y, 1, 0), SAllocOnce(x, 1, 0)]);
            && !c.s.failed && x in c.s.symbols && y in c.s.symbols && c.s.symbols[x] == c.s.symbols[y]
            && x !in c.live && y in c.live
  {
    var c0 := Config(s, live);
    RunAppend(c0, [Begin, SAllocOnce(x, 1, 0), End], [Begin, SAlloc(y, 1, 0), SAllocOnce(x, 1, 0)]);
    RunThree(c0, Begin, SAllocOnce(x, 1, 0), End);
    FirstKernel(c0, x);
    var c1 := RunAll(c0, [Begin, SAllocOnce(x, 1, 0), End]);
    RunThree(c1, Begin, SAlloc(y, 1, 0), SAllocOnce(x, 1, 0));
    SecondKernel(c1, x, y);
  }

  lemma SecondKernel(c: Config, x: string, y: string)
    requires !c.s.failed && x in c.s.once && x in c.s.symbols && c.s.symbols[x] == 0 && x != y
    ensures var c' := Next1(Next1(Next1(c, Begin), SAlloc(y, 1, 0)), SAllocOnce(x, 1, 0));
            && !c'.s.failed && x in c'.s.symbols && y in c'.s.symbols && c'.s.symbols[x] == c'.s.symbols[y] == 0
            && x !in c'.live && y in c'.live
  {
    var s2 := Step(DoBegin(c.s), SAlloc(y, 1, 0));
    assert 0 % 1 == 0;
    assert s2.symbols[y] == 0 && !s2.failed;
  }

  lemma FirstKernel(c: Config, x: string)
    requires !c.s.failed && x !in c.s.once
    ensures var c' := Next1(Next1(Next1(c, Begin), SAllocOnce(x, 1, 0)), End);
            !c'.s.failed && x in c'.s.once && x in c'.s.symbols && c'.s.symbols[x] == 0
  {
    var s1 := DoBegin(c.s);
    var s2 := Step(s1, SAllocOnce(x, 1, 0));
    assert 0 % 1 == 0;
    assert s2.symbols[x] == 0 && s2.nextS == 1 && !s2.failed;
  }

  // ---- occupancy ----

  predicate LimitsMatch(s: State) {
    s.availV == TableV(s.minWaves) && s.availS == TableS(s.minWaves) && (s.failed || s.minWaves <= s.maxWaves)
  }

  lemma {:induction false} LimitsStayMatched(c: Config, cmds: seq<Cmd>)
    requires LimitsMatch(c.s)
    ensures LimitsMatch(RunAll(c, cmds).s)
    decreases |cmds|
  {
    if cmds != [] {
      LimitsStep(c.s, cmds[0]);
      LimitsStayMatched(Next1(c, cmds[0]), cmds[1..]);
    }
  }

  lemma LimitsStep(s: State, c: Cmd)
    requires LimitsMatch(s)
    ensures LimitsMatch(Step(s, c))
  {
    match c
    case SetMin(w) => LimitsSetMin(s, w);
    case SetMax(w) => LimitsSetMax(s, w);
    case End => LimitsEnd(s);
    case VAlloc(_, _) => LimitsAlloc(s, c);
    case SAlloc(_, _, _) => LimitsAlloc(s, c);
    case LdsAlloc(_, _, _) => LimitsAlloc(s, c);
    case SAllocOnce(_, _, _) => LimitsAlloc(s, c);
    case _ =>
  }

  lemma LimitsSetMin(s: State, w: int)
    requires LimitsMatch(s)
    ensures LimitsMatch(DoSetMin(s, w))
  {}

  lemma LimitsSetMax(s: State, w: int)
    requires LimitsMatch(s)
    ensures LimitsMatch(DoSetMax(s, w))
  {}

  lemma LimitsEnd(s: State)
    requires LimitsMatch(s)
    ensures LimitsMatch(DoEnd(s))
  {}

  lemma LimitsAlloc(s: State, c: Cmd)
    requires LimitsMatch(s) && (c.VAlloc? || c.SAlloc? || c.LdsAlloc? || c.SAllocOnce?)
    ensures LimitsMatch(Step(s, c))
  {}

  /** The table row by row. */
  lemma TableRows(w: int)
    ensures TableV(w) == if w == 10 then 24 else if w == 9 then 28 else if w == 8 then 32 else if w == 7 then 36
                         else if w == 6 then 40 else if w == 5 then 48 else if w == 4 then 64 else if w == 3 then 84
                         else if w == 2 then 128 else 256
  {
    if 1 <= w <= 10 {
      assert w == 1 || w == 2 || w == 3 || w == 4 || w == 5 || w == 6 || w == 7 || w == 8 || w == 9 || w == 10;
    }
  }

  /** More waves, fewer registers each. */
  lemma TableAntitone(a: int, b: int)
    requires 1 <= a <= b <= 10
    ensures TableV(b) <= TableV(a) && TableS(b) <= TableS(a)
  {
    TableRows(a);
    TableRows(b);
  }

  /** The row of a number of waves holds the most VGPRs that many waves can have. */
  lemma TableFits(w: int)
    ensures TableV(w) % 4 == 0 && TableV(w) >= 24
    ensures w <= 10 ==> TableV(w) * w <= 256
    ensures 1 <= w <= 10 ==> 256 < (TableV(w) + 4) * w
    ensures !(1 <= w <= 10) ==> TableV(w) == 256
  {
    TableRows(w);
  }

  /** VGPRs the hardware reserves for a wave, in granules of four. */
  function Granted(s: State): int { 4 * (s.granV + 1) }

  lemma GranuleRoundsUp(v: int)
    requires v > 0
    ensures v <= 4 * (Div(v - 1, 4) + 1) < v + 4 && 4 * (Div(v - 1, 4) + 1) % 4 == 0
  {}

  lemma PromiseArithmetic(g: int, t: int, w: int)
    requires 0 < g <= t && (w <= 0 || t * w <= 256)
    ensures g * w <= 256
  {
    if w > 0 {
      Bits.MulMono(g, t, w);
    } else {
      Bits.MulNonNeg(g, -w);
      assert g * w == -(g * (-w));
    }
  }

  /** What the end declares: the larger of the table's row and of what was allocated, SGPRs with two more for each
      reserved kind; in granules that cover it with less than one to spare; and the LDS pointer. */
  predicate Declares(s: State, e: State) {
    var used := s.nextS + 2 * s.reserveVcc + 2 * s.reserveXnack + 2 * s.reserveFlat;
    && (if TableV(s.maxWaves) <= s.nextV then e.autoV == s.nextV else e.autoV == TableV(s.maxWaves))
    && (if TableS(s.maxWaves) <= used then e.autoS == used else e.autoS == TableS(s.maxWaves))
    && e.autoV <= 4 * (e.granV + 1) < e.autoV + 4 && e.autoS <= 8 * (e.granS + 1) < e.autoS + 8
    && e.autoL == s.nextL
  }

  lemma EndDeclared(s: State)
    ensures Declares(s, Step(s, End))
  {
    var v, r := Max(TableV(s.maxWaves), s.nextV), Max(TableS(s.maxWaves), s.nextS + Extra(s));
    TableFits(s.maxWaves);
    GranuleRoundsUp(v);
    assert r <= 8 * (Div(r - 1, 8) + 1) < r + 8;
  }

  /** Every error-free `.GPR_ALLOC_END` declares enough for what was allocated, and keeps the promised number of
      waves exactly when the maximum is at most 10, or no more than one wave was promised: a larger maximum falls
      into the table's default of 256 registers. */
  lemma OccupancyExact(s: State)
    requires LimitsMatch(s) && !Step(s, End).failed
    ensures var e := Step(s, End);
            && Declares(s, e) && Granted(e) >= s.nextV
            && 8 * (e.granS + 1) >= s.nextS + 2 * (s.reserveFlat + s.reserveXnack + s.reserveVcc) && e.autoL == s.nextL
            && (Granted(e) * s.minWaves <= 256 <==> s.maxWaves <= 10 || s.minWaves <= 1)
  {
    EndDeclared(s);
    PromiseExact(s);
  }

  /** The declared counts cover every live block, SGPRs next to the reserved ones. */
  predicate Covers(e: State, live: Owners) {
    forall x :: x in live && live[x].len > 0 ==>
      var top := live[x].base + live[x].len;
      match live[x].cls
      case VGPR => top <= e.autoV <= 4 * (e.granV + 1)
      case SGPR => top + 2 * (e.reserveFlat + e.reserveXnack + e.reserveVcc) <= e.autoS <= 8 * (e.granS + 1)
      case LDS => top <= e.autoL
  }

  lemma EndCovers(c: Config)
    requires Sound(c) && !Step(c.s, End).failed
    ensures Covers(Step(c.s, End), c.live)
  {
    EndDeclared(c.s);
    forall x | x in c.live && c.live[x].len > 0
      ensures Placed(c.s, x, c.live[x])
    {}
  }

  lemma PromiseExact(s: State)
    requires LimitsMatch(s) && !Step(s, End).failed
    ensures Granted(Step(s, End)) * s.minWaves <= 256 <==> s.maxWaves <= 10 || s.minWaves <= 1
  {
    var v := Max(TableV(s.maxWaves), s.nextV);
    TableFits(s.maxWaves);
    GranuleRoundsUp(v);
    if s.maxWaves <= 10 {
      GrantedWithin(s, v);
      TableFits(s.minWaves);
      PromiseArithmetic(4 * (Div(v - 1, 4) + 1), TableV(s.minWaves), s.minWaves);
    } else {
      TableRows(s.minWaves);
      assert v == 256;
    }
  }

  lemma GranulesWithin(v: int, t: int)
    requires 0 < v <= t && t % 4 == 0
    ensures 0 < 4 * (Div(v - 1, 4) + 1) <= t
  {}

  /** No maximum of at most 10 waves has more registers than a minimum not above it. */
  lemma RowsOrdered(a: int, b: int)
    requires a <= b <= 10
    ensures 0 < TableV(b) <= TableV(a)
  {
    TableRows(a);
    TableRows(b);
  }

  /** Rounded up to granules, the declared count stays within the table's row for the minimum. */
  lemma GrantedWithin(s: State, v: int)
    requires LimitsMatch(s) && !Step(s, End).failed && s.maxWaves <= 10 && v == Max(TableV(s.maxWaves), s.nextV)
    ensures 0 < v && 0 < 4 * (Div(v - 1, 4) + 1) <= TableV(s.minWaves)
  {
    RowsOrdered(s.minWaves, s.maxWaves);
    TableFits(s.minWaves);
    EndChecks(s);
    GranulesWithin(v, TableV(s.minWaves));
  }

  lemma EndChecks(s: State)
    requires !Step(s, End).failed
    ensures !s.failed && s.nextV < s.availV && s.nextS < s.availS && s.nextL < s.availL
  {}

  /** The declared SGPR count stays within the 102 that exist exactly when the allocated and the reserved
      ones together do; the availability check looks at the allocated ones alone. */
  lemma ReservedNotChecked(s: State)
    requires LimitsMatch(s) && !Step(s, End).failed
    ensures Step(s, End).autoS <= 102 <==> s.nextS + Extra(s) <= 102
  {}

  /** Over a whole kernel: every run from `.GPR_ALLOC_BEGIN` arrives at its end with the limits matched,
      so the exact condition above holds there. */
  lemma KernelLimitsMatch(s: State, live: Owners, cmds: seq<Cmd>)
    ensures LimitsMatch(RunAll(Config(s, live), [Begin] + cmds).s)
  {
    assert ([Begin] + cmds)[1..] == cmds;
    LimitsStayMatched(Next1(Config(s, live), Begin), cmds);
  }

  lemma KernelKeepsPromise(s: State, live: Owners, cmds: seq<Cmd>, at: State)
    requires at == RunAll(Config(s, live), [Begin] + cmds).s && !Step(at, End).failed
    ensures Declares(at, Step(at, End))
    ensures Granted(Step(at, End)) * at.minWaves <= 256 <==> at.maxWaves <= 10 || at.minWaves <= 1
  {
    KernelLimitsMatch(s, live, cmds);
    OccupancyExact(at);
  }

  /** Such a kernel exists: at most eleven waves allowed, two promised, and each takes the whole register file. */
  lemma PromiseBroken(s: State, live: Owners)
    requires !s.failed
    ensures var at := RunAll(Config(s, live), [Begin, SetMax(11), SetMin(2)]).s;
            && !Step(at, End).failed && Granted(Step(at, End)) == 256 && at.minWaves == 2
  {
    TableRows(2);
    TableRows(11);
    RunThree(Config(s, live), Begin, SetMax(11), SetMin(2));
  }

  /** And a kernel that declares more SGPRs than there are. */
  lemma TooManySgprs(s: State, live: Owners)
    requires !s.failed
    ensures var at := RunAll(Config(s, live), [Begin, SFrom(101), ReserveVcc]).s;
            && !Step(at, End).failed && Step(at, End).autoS == 103
  {
    RunThree(Config(s, live), Begin, SFrom(101), ReserveVcc);
    EndDeclares(DoBegin(s).(nextS := 101, reserveVcc := 1));
  }

  lemma EndDeclares(s: State)
    requires !s.failed && s.guard == 0 && s.nextS == 101 && s.nextV == 0 && s.nextL == 0
    requires s.availS == 102 && s.availV == 256 && s.availL == 65536 && s.maxWaves == 10 && Extra(s) == 2
    ensures !DoEnd(s).failed && DoEnd(s).autoS == 103
  {}

  // ---- LDS ----

  /** The LDS pointer handed out is the least multiple of the alignment not below the old pointer. */
  lemma LdsLeast(at: int, align: nat, m: int)
    requires at >= 0 && align > 0 && m >= at && m % align == 0
    ensures LdsBase(at, align) <= m && LdsBase(at, align) % align == 0 && at <= LdsBase(at, align)
  {
    LdsRoundUp(at, align);
    NoMultipleBetween(m, LdsBase(at, align), align);
  }

  /** Different multiples are at least one alignment apart. */
  lemma NoMultipleBetween(m: int, a: int, align: nat)
    requires align > 0 && m >= 0 && a >= 0 && m % align == 0 && a % align == 0
    ensures m >= a || m + align <= a
  {
    var p, q := a / align, m / align;
    assert a == p * align && m == q * align;
    if q < p { Bits.MulStep(q, p, align); } else { Bits.MulMono(p, q, align); }
  }

  function Bytes(cmds: seq<Cmd>): nat {
    if cmds == [] then 0 else (if cmds[0].LdsAlloc? then cmds[0].bytes else 0) + Bytes(cmds[1..])
  }

  function Slack(cmds: seq<Cmd>): int {
    if cmds == [] then 0 else (if cmds[0].LdsAlloc? then cmds[0].unit - 1 else 0) + Slack(cmds[1..])
  }

  /** Over any interleaving of commands without a new begin or `.LDS_ALLOC_FROM`: the LDS pointer ends at
      the old pointer plus all bytes plus padding, and the padding is at most the sum of alignment - 1. */
  lemma {:induction false} LdsPadding(c: Config, cmds: seq<Cmd>)
    requires Bounds(c.s) && !RunAll(c, cmds).s.failed
    requires forall i :: 0 <= i < |cmds| ==> !cmds[i].Begin? && !cmds[i].LFrom?
    ensures 0 <= RunAll(c, cmds).s.nextL - (c.s.nextL + Bytes(cmds)) <= Slack(cmds)
    decreases |cmds|
  {
    if cmds != [] {
      var c' := Next1(c, cmds[0]);
      if c'.s.failed { FailedSticks(c', cmds[1..]); }
      LdsStep(c.s, cmds[0]);
      LdsPadding(c', cmds[1..]);
    }
  }

  lemma LdsStep(s: State, c: Cmd)
    requires Bounds(s) && !Step(s, c).failed && !c.Begin? && !c.LFrom?
    ensures Bounds(Step(s, c))
    ensures 0 <= Step(s, c).nextL - (s.nextL + Bytes([c])) <= Slack([c])
  {
    if c.LdsAlloc? { LdsRoundUp(s.nextL, c.unit); }
    assert Bytes([c][1..]) == 0 && Slack([c][1..]) == 0;
  }
}
