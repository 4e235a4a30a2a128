/** The two languages of the sp3 converter: the lines it reads, the assembler lines it writes, and
    the block structure (a tree) that a well-nested sp3 program flattens to. */
module Sp3Syntax {

  /** One word, with the backslashes written in front of it. A glued word is directly followed by something
      other than white space, a comma or the line end, such as a parenthesis. */
  datatype Tok = Tok(slashes: nat, name: string, glued: bool)

  function Plain(name: string): Tok { Tok(0, name, false) }

  /** The arguments of a call, whose last word is followed by the closing parenthesis. */
  function CallArgs(ts: seq<Tok>): (r: seq<Tok>)
    ensures |r| == |ts|
  {
    if ts == [] then [] else ts[..|ts| - 1] + [ts[|ts| - 1].(glued := true)]
  }

  type Pos = n: nat | 0 < n witness 1

  datatype Kind = KFor | KIf | KFunction

  datatype Line =
    | For(v: string, start: nat, condVar: string, bound: nat, incVar: string, step: Pos)
    | If(cond: seq<Tok>)
    | Else(spaced: bool)
    | Function(name: string, params: seq<string>)
    | End
    | Var(target: Tok, value: seq<Tok>)
    | Call(callee: string, args: seq<Tok>)
    | Instr(op: Tok, operands: seq<Tok>)

  /** The lines that push the scope stack. */
  predicate Opener(line: Line) { line.For? || line.If? || line.Function? }

  function KindOf(line: Line): Kind
    requires Opener(line)
  {
    if line.For? then KFor else if line.If? then KIf else KFunction
  }

  datatype Out =
    | Irp(v: string, values: seq<Tok>)
    | Endr
    | IfDir(cond: seq<Tok>)
    | ElseDir
    | Endif
    | Macro(name: string, params: seq<string>)
    | Endm
    | Set(target: Tok, value: seq<Tok>)
    | Stmt(head: Tok, operands: seq<Tok>)

  datatype ElseForm = NoElse | BareElse | SpacedElse

  /** A well-nested program; every statement carries the program that follows it. */
  datatype Prog =
    | Skip
    | PInstr(op: Tok, operands: seq<Tok>, next: Prog)
    | PCall(callee: string, args: seq<Tok>, next: Prog)
    | PVar(target: Tok, value: seq<Tok>, next: Prog)
    | PIf(cond: seq<Tok>, thn: Prog, form: ElseForm, els: Prog, next: Prog)
    | PFor(v: string, start: nat, condVar: string, bound: nat, incVar: string, step: Pos,
           body: Prog, next: Prog)
    | PFunction(name: string, params: seq<string>, body: Prog, next: Prog)

  /** The lines of a program, in source order. */
  function Flatten(p: Prog): seq<Line> {
    match p
    case Skip => []
    case PInstr(op, ops, next) => [Instr(op, ops)] + Flatten(next)
    case PCall(f, ops, next) => [Call(f, ops)] + Flatten(next)
    case PVar(x, val, next) => [Var(x, val)] + Flatten(next)
    case PIf(c, thn, form, els, next) =>
      [If(c)] + Flatten(thn)
      + (if form.NoElse? then [] else [Else(form.SpacedElse?)] + Flatten(els))
      + [End] + Flatten(next)
    case PFor(v, a, cv, b, iv, s, body, next) =>
      [For(v, a, cv, b, iv, s)] + Flatten(body) + [End] + Flatten(next)
    case PFunction(f, ps, body, next) =>
      [Function(f, ps)] + Flatten(body) + [End] + Flatten(next)
  }

  /** There is a function definition among the lines of a program. */
  predicate Defines(p: Prog) {
    match p
    case Skip => false
    case PInstr(_, _, next) => Defines(next)
    case PCall(_, _, next) => Defines(next)
    case PVar(_, _, next) => Defines(next)
    case PIf(_, thn, form, els, next) => Defines(thn) || (!form.NoElse? && Defines(els)) || Defines(next)
    case PFor(_, _, _, _, _, _, body, next) => Defines(body) || Defines(next)
    case PFunction(_, _, _, _) => true
  }

  /** Decimal rendering of a loop value. */
  function Dec(n: nat): string {
    if n < 10 then ["0123456789"[n]] else Dec(n / 10) + ["0123456789"[n % 10]]
  }

  predicate Digits(s: string) { forall i :: 0 <= i < |s| ==> '0' <= s[i] <= '9' }

  /** The number that a string of digits stands for. */
  function ReadDec(s: string): nat
    requires Digits(s)
  {
    if s == [] then 0 else 10 * ReadDec(s[..|s| - 1]) + (s[|s| - 1] as int - '0' as int)
  }

  /** The rendering reads back, and has no leading zero. */
  lemma {:induction false} DecReadsBack(n: nat)
    ensures Digits(Dec(n)) && ReadDec(Dec(n)) == n
    ensures |Dec(n)| > 0 && (n > 0 ==> Dec(n)[0] != '0')
    decreases n
  {
    var s := Dec(n);
    LastDigit(n % 10);
    if n >= 10 {
      DecReadsBack(n / 10);
      assert s[..|s| - 1] == Dec(n / 10);
    } else {
      assert s[..|s| - 1] == "";
    }
  }

  lemma LastDigit(d: nat)
    requires d < 10
    ensures "0123456789"[d] as int == '0' as int + d
  {
    assert d == 0 || d == 1 || d == 2 || d == 3 || d == 4 || d == 5 || d == 6 || d == 7 || d == 8 || d == 9;
  }
}
