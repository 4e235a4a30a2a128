/** The converter's line loop: a scope stack and one current parameter list, updated line by line. */
module Sp3Translator {
  import opened Sp3Syntax
  import opened Bits

  datatype State = State(scope: seq<Kind>, args: seq<string>)

  /** One backslash for every parameter the word is equal to. Only words followed by a space, a comma or
      the line end are escaped. */
  function EscapeTok(t: Tok, args: seq<string>): Tok {
    if t.glued then t else Tok(t.slashes + multiset(args)[t.name], t.name, false)
  }

  function EscapeToks(ts: seq<Tok>, args: seq<string>): seq<Tok> {
    seq(|ts|, i requires 0 <= i < |ts| => EscapeTok(ts[i], args))
  }

  /** The values that the converter lists after `.irp`. */
  function IrpValues(v: nat, bound: nat, step: Pos): seq<nat>
    decreases bound - v
  {
    if v < bound then [v] + IrpValues(v + step, bound, step) else []
  }

  function Render(values: seq<nat>): seq<Tok> {
    seq(|values|, i requires 0 <= i < |values| => Plain(Dec(values[i])))
  }

  function Pop(st: State): State
    requires st.scope != []
  {
    State(st.scope[..|st.scope| - 1], if st.scope[|st.scope| - 1] == KFunction then [] else st.args)
  }

  function NextState(st: State, line: Line): State {
    match line
    case For(_, _, _, _, _, _) => State(st.scope + [KFor], st.args)
    case If(_) => State(st.scope + [KIf], st.args)
    case Function(_, ps) => State(st.scope + [KFunction], ps)
    case End => if st.scope == [] then st else Pop(st)
    case _ => st
  }

  function Emit(st: State, line: Line): Out {
    match line
    case For(v, a, _, b, _, s) => Irp(v, Render(IrpValues(a, b, s)))
    case If(c) => IfDir(EscapeToks(c, st.args))
    case Else(spaced) => if spaced then ElseDir else Stmt(Plain("else"), [])
    case Function(f, ps) => Macro(f, ps)
    case End =>
      if st.scope == [] then Stmt(Plain("end"), [])
      else (match st.scope[|st.scope| - 1]
            case KIf => Endif
            case KFunction => Endm
            case KFor => Endr)
    case Var(x, val) => Set(EscapeTok(x, st.args), EscapeToks(val, st.args))
    case Call(f, ops) => Stmt(Plain(f), EscapeToks(CallArgs(ops), st.args))
    case Instr(op, ops) => Stmt(EscapeTok(op, st.args), EscapeToks(ops, st.args))
  }

  function StateAfter(st: State, lines: seq<Line>): State
    decreases |lines|
  {
    if lines == [] then st else StateAfter(NextState(st, lines[0]), lines[1..])
  }

  function TranslateFrom(st: State, lines: seq<Line>): (out: seq<Out>)
    ensures |out| == |lines|
    decreases |lines|
  {
    if lines == [] then [] else [Emit(st, lines[0])] + TranslateFrom(NextState(st, lines[0]), lines[1..])
  }

  const START := State([], [])

  lemma StateAfterSnoc(st: State, lines: seq<Line>, line: Line)
    ensures StateAfter(st, lines + [line]) == NextState(StateAfter(st, lines), line)
    decreases |lines|
  {
    if lines != [] {
      assert (lines + [line])[1..] == lines[1..] + [line];
      StateAfterSnoc(NextState(st, lines[0]), lines[1..], line);
    }
  }

  lemma {:induction false} TranslateSplit(st: State, a: seq<Line>, b: seq<Line>)
    ensures TranslateFrom(st, a + b) == TranslateFrom(st, a) + TranslateFrom(StateAfter(st, a), b)
    ensures StateAfter(st, a + b) == StateAfter(StateAfter(st, a), b)
    decreases |a|
  {
    if a == [] {
      assert a + b == b;
    } else {
      assert (a + b)[1..] == a[1..] + b;
      TranslateSplit(NextState(st, a[0]), a[1..], b);
    }
  }

  /** The inner loop that lists the values of an unrolled `for`. */
  method ListValues(start: nat, bound: nat, step: Pos) returns (values: seq<nat>)
    ensures values == IrpValues(start, bound, step)
  {
    values := [];
    var v := start;
    while v < bound
      invariant values + IrpValues(v, bound, step) == IrpValues(start, bound, step)
      decreases bound - v
    {
      assert values + IrpValues(v, bound, step) == (values + [v]) + IrpValues(v + step, bound, step);
      values := values + [v];
      v := v + step;
    }
  }

  lemma DivStep(x: nat, d: Pos)
    ensures (x + d) / d == x / d + 1
  {
    DivUnique(x + d, d, x / d + 1, x % d);
  }

  lemma {:induction false} IrpValueAt(start: nat, bound: nat, step: Pos, k: nat)
    requires k < |IrpValues(start, bound, step)|
    ensures IrpValues(start, bound, step)[k] == start + k * step < bound
    decreases k
  {
    if k > 0 {
      IrpValueAt(start + step, bound, step, k - 1);
      assert start + step + (k - 1) * step == start + k * step;
    }
  }

  lemma {:induction false} IrpValueCount(start: nat, bound: nat, step: Pos)
    requires start < bound
    ensures |IrpValues(start, bound, step)| == (bound - start + step - 1) / step
    decreases bound - start
  {
    DivStep(bound - start - 1, step);
    if start + step < bound {
      IrpValueCount(start + step, bound, step);
    } else {
      assert IrpValues(start + step, bound, step) == [];
      DivUnique(bound - start - 1, step, 0, bound - start - 1);
    }
  }

  /** The listed values are the arithmetic progression from start, all of it below the bound, and
      there are ceil((bound - start) / step) of them. */
  lemma IrpValuesProgression(start: nat, bound: nat, step: Pos)
    requires start < bound
    ensures |IrpValues(start, bound, step)| == (bound - start + step - 1) / step
    ensures forall k :: 0 <= k < |IrpValues(start, bound, step)| ==>
              IrpValues(start, bound, step)[k] == start + k * step < bound
  {
    IrpValueCount(start, bound, step);
    forall k | 0 <= k < |IrpValues(start, bound, step)|
      ensures IrpValues(start, bound, step)[k] == start + k * step < bound
    {
      IrpValueAt(start, bound, step, k);
    }
  }

  /** The whole script, as the loop runs it. */
  method Translate(lines: seq<Line>) returns (out: seq<Out>)
    ensures out == TranslateFrom(START, lines)
  {
    out := [];
    var scope: seq<Kind>, args: seq<string> := [], [];
    var n := 0;
    while n < |lines|
      invariant 0 <= n <= |lines|
      invariant State(scope, args) == StateAfter(START, lines[..n])
      invariant out == TranslateFrom(START, lines[..n])
    {
      ghost var st := State(scope, args);
      assert lines[..n + 1] == lines[..n] + [lines[n]];
      StateAfterSnoc(START, lines[..n], lines[n]);
      TranslateSplit(START, lines[..n], [lines[n]]);
      match lines[n] {
        case For(v, a, _, b, _, s) =>
          var values := ListValues(a, b, s);
          out := out + [Irp(v, Render(values))];
          scope := scope + [KFor];
        case If(c) =>
          scope := scope + [KIf];
          out := out + [IfDir(EscapeToks(c, args))];
        case Function(f, ps) =>
          scope := scope + [KFunction];
          args := ps;
          out := out + [Macro(f, ps)];
        case Else(spaced) =>
          out := out + [if spaced then ElseDir else Stmt(Plain("else"), [])];
        case Var(x, val) =>
          out := out + [Set(EscapeTok(x, args), EscapeToks(val, args))];
        case Call(f, ops) =>
          out := out + [Stmt(Plain(f), EscapeToks(CallArgs(ops), args))];
        case Instr(op, ops) =>
          out := out + [Stmt(EscapeTok(op, args), EscapeToks(ops, args))];
        case End =>
          if scope == [] {
            out := out + [Stmt(Plain("end"), [])];
          } else {
            var s := scope[|scope| - 1];
            scope := scope[..|scope| - 1];
            if s == KIf { out := out + [Endif]; }
            if s == KFunction {
              out := out + [Endm];
              args := [];
            }
            if s == KFor { out := out + [Endr]; }
          }
      }
      n := n + 1;
    }
    assert lines[..n] == lines;
  }
}
