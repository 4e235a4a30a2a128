/** What the converter writes for each line of any input, word by word and in order. */
module Sp3Lines {
  import opened Sp3Syntax
  import T = Sp3Translator

  /** The output for line n, and the parameters that are escaped there. */
  function Written(lines: seq<Line>, n: nat): Out
    requires n < |lines|
  {
    T.TranslateFrom(T.START, lines)[n]
  }

  function Escaped(lines: seq<Line>, n: nat): seq<string>
    requires n <= |lines|
  {
    T.StateAfter(T.START, lines[..n]).args
  }

  /** The same word, with more backslashes if it is a parameter and not glued, and unchanged if not. */
  predicate Carried(t: Tok, t': Tok, args: seq<string>) {
    if t.name in args && !t.glued then t'.name == t.name && !t'.glued && t'.slashes > t.slashes else t' == t
  }

  predicate AllCarried(ts: seq<Tok>, ts': seq<Tok>, args: seq<string>) {
    |ts'| == |ts| && forall k :: 0 <= k < |ts| ==> Carried(ts[k], ts'[k], args)
  }

  /** The values of a `for` line: as many as fit below the bound, in steps from the start. */
  predicate Listed(values: seq<Tok>, start: nat, bound: nat, step: Pos) {
    && |values| == (if start < bound then (bound - start + step - 1) / step else 0)
    && forall k :: 0 <= k < |values| ==> start + k * step < bound && values[k] == Plain(Dec(start + k * step))
  }

  /** The arguments of a call in the order written; the last one is followed by the parenthesis and is never escaped. */
  predicate Arguments(args: seq<Tok>, out: seq<Tok>, escaped: seq<string>) {
    && |out| == |args|
    && (forall k :: 0 <= k < |args| ==> out[k].name == args[k].name)
    && (forall k :: 0 <= k < |args| - 1 ==> Carried(args[k], out[k], escaped))
    && (args != [] ==> out[|args| - 1] == Tok(args[|args| - 1].slashes, args[|args| - 1].name, true))
  }

  predicate Becomes(line: Line, o: Out, args: seq<string>) {
    match line
    case For(v, a, _, b, _, s) => o.Irp? && o.v == v && Listed(o.values, a, b, s)
    case If(c) => o.IfDir? && AllCarried(c, o.cond, args)
    case Else(spaced) => if spaced then o.ElseDir? else o == Stmt(Plain("else"), [])
    case Function(f, ps) => o == Macro(f, ps)
    case End => o.Endif? || o.Endm? || o.Endr? || o == Stmt(Plain("end"), [])
    case Var(x, val) => o.Set? && Carried(x, o.target, args) && AllCarried(val, o.value, args)
    case Call(f, ops) => o.Stmt? && o.head == Plain(f) && Arguments(ops, o.operands, args)
    case Instr(op, ops) => o.Stmt? && Carried(op, o.head, args) && AllCarried(ops, o.operands, args)
  }

  lemma LineWritten(lines: seq<Line>, n: nat)
    requires n < |lines|
    ensures Written(lines, n) == T.Emit(T.StateAfter(T.START, lines[..n]), lines[n])
    ensures T.StateAfter(T.START, lines[..n + 1]) == T.NextState(T.StateAfter(T.START, lines[..n]), lines[n])
  {
    assert lines == lines[..n] + lines[n..];
    T.TranslateSplit(T.START, lines[..n], lines[n..]);
    assert lines[..n + 1] == lines[..n] + [lines[n]];
    T.StateAfterSnoc(T.START, lines[..n], lines[n]);
  }

  lemma WordCarried(t: Tok, args: seq<string>)
    ensures Carried(t, T.EscapeTok(t, args), args)
  {}

  lemma WordsCarried(ts: seq<Tok>, args: seq<string>)
    ensures AllCarried(ts, T.EscapeToks(ts, args), args)
  {
    forall k | 0 <= k < |ts|
      ensures Carried(ts[k], T.EscapeToks(ts, args)[k], args)
    {
      WordCarried(ts[k], args);
    }
  }

  lemma ValuesListed(start: nat, bound: nat, step: Pos)
    ensures Listed(T.Render(T.IrpValues(start, bound, step)), start, bound, step)
  {
    if start < bound { T.IrpValuesProgression(start, bound, step); }
  }

  /** Every line of every input becomes what its kind asks for. */
  lemma EveryLine(lines: seq<Line>, n: nat)
    requires n < |lines|
    ensures Becomes(lines[n], Written(lines, n), Escaped(lines, n))
  {
    var args := Escaped(lines, n);
    LineWritten(lines, n);
    match lines[n]
    case For(_, a, _, b, _, s) => ValuesListed(a, b, s);
    case If(c) => WordsCarried(c, args);
    case Var(x, val) =>
      WordCarried(x, args);
      WordsCarried(val, args);
    case Call(_, ops) => WordsCarried(CallArgs(ops), args);
    case Instr(op, ops) =>
      WordCarried(op, args);
      WordsCarried(ops, args);
    case _ =>
  }

  predicate Changes(lines: seq<Line>, n: nat)
    requires n < |lines|
  {
    lines[n].Function? || Written(lines, n).Endm?
  }

  lemma ParametersStep(st: T.State, line: Line)
    ensures T.NextState(st, line).args
         == if line.Function? then line.params else if T.Emit(st, line).Endm? then [] else st.args
  {}

  lemma EscapedStep(lines: seq<Line>, n: nat)
    requires n < |lines|
    ensures Escaped(lines, n + 1)
         == if lines[n].Function? then lines[n].params else if Changes(lines, n) then [] else Escaped(lines, n)
  {
    LineWritten(lines, n);
    ParametersStep(T.StateAfter(T.START, lines[..n]), lines[n]);
  }

  /** The parameters that are escaped are those of the last `function` line, unless a function has ended since. */
  lemma {:induction false} EscapedParameters(lines: seq<Line>, j: nat, n: nat)
    requires j < n <= |lines| && Changes(lines, j) && forall k :: j < k < n ==> !Changes(lines, k)
    ensures Escaped(lines, n) == if lines[j].Function? then lines[j].params else []
    decreases n
  {
    var m: nat := n - 1;
    EscapedStep(lines, m);
    assert lines[..n] == lines[..m + 1];
    if j < m {
      EscapedParameters(lines, j, m);
      assert !Changes(lines, m);
    }
  }

  /** In front of the first `function` line nothing is escaped. */
  lemma {:induction false} NothingEscaped(lines: seq<Line>, n: nat)
    requires n <= |lines| && forall k :: 0 <= k < n ==> !Changes(lines, k)
    ensures Escaped(lines, n) == []
    decreases n
  {
    if n > 0 {
      var m: nat := n - 1;
      EscapedStep(lines, m);
      assert !Changes(lines, m) && lines[..n] == lines[..m + 1];
      NothingEscaped(lines, m);
    } else {
      assert lines[..0] == [];
    }
  }
}
