/** The register and LDS allocator: the symbols its macros keep, and each macro as one step on them. An
    `.error` is recorded and assembly goes on, as the assembler does. */
module GprAlloc {

  /** The symbols the macros maintain; `once` holds the names whose allocate-once guard is 1. */
  datatype State = State(
    availV: int, availS: int, availL: int,
    nextV: int, nextS: int, nextL: int,
    autoV: int, autoS: int, autoL: int, granV: int, granS: int,
    reserveVcc: int, reserveXnack: int, reserveFlat: int,
    guard: int, maxWaves: int, minWaves: int,
    symbols: map<string, int>, once: set<string>, failed: bool)

  datatype Cmd =
    | Begin
    | End
    | SetMin(waves: int)
    | SetMax(waves: int)
    | VFrom(at: nat)
    | SFrom(at: nat)
    | LFrom(at: nat)
    | ReserveVcc
    | ReserveXnack
    | ReserveFlat
    | VAlloc(name: string, count: nat)
    | SAlloc(name: string, count: nat, align: int)
    | LdsAlloc(name: string, bytes: nat, unit: nat)
    | SAllocOnce(name: string, count: nat, align: int)
    | Invalidate(name: string)
    | Reuse(old': string, new': string)

  const INVALID := 0x7fff_ffff

  /** VGPRs for a wave: the most that so many waves can have of 256 in granules of four; 256 for a number of
      waves outside 1 to 10. */
  function TableV(waves: int): int { if 1 <= waves <= 10 then 256 / waves / 4 * 4 else 256 }

  function TableS(waves: int): int {
    if waves == 10 then 80 else if 8 <= waves <= 9 then 96 else 102
  }

  function FailIf(s: State, b: bool): State { if b then s.(failed := true) else s }

  function CheckV(s: State, n: int): State { FailIf(s, s.nextV + n >= s.availV) }
  function CheckS(s: State, n: int): State { FailIf(s, s.nextS + n >= s.availS) }
  function CheckL(s: State, n: int): State { FailIf(s, s.nextL + n >= s.availL) }

  function DoBegin(s: State): State {
    s.(availV := 256, availS := 102, availL := 65536, nextV := 0, nextS := 0, nextL := 0,
       autoV := 0, autoS := 0, autoL := 0, granV := 0, granS := 0,
       reserveVcc := 0, reserveXnack := 0, reserveFlat := 0, guard := 0, maxWaves := 10, minWaves := 1)
  }

  function DoSetMin(s: State, w: int): State {
    var s1 := FailIf(s, w > 10).(availS := TableS(w), availV := TableV(w));
    var s2 := CheckV(CheckS(s1, 0), 0).(minWaves := w);
    FailIf(s2, s2.minWaves > s2.maxWaves)
  }

  function DoSetMax(s: State, w: int): State {
    var s1 := FailIf(s, w < 1).(maxWaves := w);
    FailIf(s1, s1.minWaves > s1.maxWaves)
  }

  /** Integer division as the assembler does it, toward zero. */
  function Div(a: int, b: nat): int
    requires b > 0
  {
    if a >= 0 then a / b else -(-a / b)
  }

  function Extra(s: State): int { 2 * (s.reserveFlat + s.reserveXnack + s.reserveVcc) }

  function Max(a: int, b: int): int { if a < b then b else a }

  function EndCounts(s: State): State {
    var v := Max(TableV(s.maxWaves), s.nextV);
    var r := Max(TableS(s.maxWaves), s.nextS + Extra(s));
    s.(autoV := v, autoS := r, granV := Div(v - 1, 4), granS := Div(r - 1, 8), autoL := s.nextL, guard := 1)
  }

  function DoEnd(s: State): State {
    EndCounts(CheckL(CheckV(CheckS(FailIf(s, s.guard == 1), 0), 0), 0))
  }

  function DoVAlloc(s: State, name: string, n: nat): State {
    CheckV(s, n).(symbols := s.symbols[name := s.nextV], nextV := s.nextV + n)
  }

  function EffectiveAlign(n: nat, align: int): nat {
    if align > 0 then align else if n > 4 then 4 else n
  }

  /** A zero alignment makes the assembler report the remainder as an error. */
  function Misaligned(at: int, align: nat): bool { align == 0 || at % align != 0 }

  function DoSAlloc(s: State, name: string, n: nat, align: int): State {
    FailIf(CheckS(s, n), Misaligned(s.nextS, EffectiveAlign(n, align)))
      .(symbols := s.symbols[name := s.nextS], nextS := s.nextS + n)
  }

  /** Where `.LDS_ALLOC` puts its block: the whole rounded-up expression becomes the new pointer. */
  function LdsBase(at: int, align: nat): int {
    if align > 0 && at % align != 0 then (Div(at, align) + 1) * align else at
  }

  function DoLdsAlloc(s: State, name: string, bytes: nat, align: nat): State {
    var s1 := FailIf(s, align == 0).(nextL := LdsBase(s.nextL, align));
    CheckL(s1, bytes).(symbols := s.symbols[name := s1.nextL], nextL := s1.nextL + bytes)
  }

  function Get(m: map<string, int>, name: string): int { if name in m then m[name] else 0 }

  function Step(s: State, c: Cmd): State {
    match c
    case Begin => DoBegin(s)
    case End => DoEnd(s)
    case SetMin(w) => DoSetMin(s, w)
    case SetMax(w) => DoSetMax(s, w)
    case VFrom(at) => s.(nextV := at)
    case SFrom(at) => s.(nextS := at)
    case LFrom(at) => s.(nextL := at)
    case ReserveVcc => s.(reserveVcc := 1)
    case ReserveXnack => s.(reserveXnack := 1)
    case ReserveFlat => s.(reserveFlat := 1)
    case VAlloc(x, n) => DoVAlloc(s, x, n)
    case SAlloc(x, n, a) => DoSAlloc(s, x, n, a)
    case LdsAlloc(x, n, a) => DoLdsAlloc(s, x, n, a)
    case SAllocOnce(x, n, a) => if x in s.once then s else DoSAlloc(s.(once := s.once + {x}), x, n, a)
    case Invalidate(x) => s.(symbols := s.symbols[x := INVALID])
    case Reuse(x, y) =>
      // An undefined old name is an assembler error.
      FailIf(s, x !in s.symbols).(symbols := s.symbols[y := Get(s.symbols, x)][x := INVALID])
  }

  function Run(s: State, cmds: seq<Cmd>): State
    decreases |cmds|
  {
    if cmds == [] then s else Run(Step(s, cmds[0]), cmds[1..])
  }
}
