/** Block structure through the converter: what it writes for each block of any program, and why the
    assembler finds the end of every block it wrote. */
module Sp3Blocks {
  import opened Sp3Syntax
  import T = Sp3Translator
  import G = GasExpansion

  // ---- the converter, block by block ----

  /** The parameters current behind a program: none once a function has ended. */
  function ArgsAfter(p: Prog, args: seq<string>): seq<string> { if Defines(p) then [] else args }

  function ArgsAfterElse(form: ElseForm, els: Prog, args: seq<string>): seq<string> {
    if form.NoElse? then args else ArgsAfter(els, args)
  }

  function Compile(p: Prog, args: seq<string>): seq<Out> {
    match p
    case Skip => []
    case PInstr(op, ops, next) => [Stmt(T.EscapeTok(op, args), T.EscapeToks(ops, args))] + Compile(next, args)
    case PCall(f, ops, next) => [Stmt(Plain(f), T.EscapeToks(CallArgs(ops), args))] + Compile(next, args)
    case PVar(x, val, next) => [Set(T.EscapeTok(x, args), T.EscapeToks(val, args))] + Compile(next, args)
    case PIf(c, thn, form, els, next) =>
      [IfDir(T.EscapeToks(c, args))] + Compile(thn, args) + CompileElse(form, Compile(els, ArgsAfter(thn, args)))
      + [Endif] + Compile(next, ArgsAfterElse(form, els, ArgsAfter(thn, args)))
    case PFor(v, a, _, b, _, s, body, next) =>
      [Irp(v, T.Render(T.IrpValues(a, b, s)))] + Compile(body, args) + [Endr] + Compile(next, ArgsAfter(body, args))
    case PFunction(f, ps, body, next) =>
      [Macro(f, ps)] + Compile(body, ps) + [Endm] + Compile(next, [])
  }

  function ElseLine(form: ElseForm): Out {
    if form.BareElse? then Stmt(Plain("else"), []) else ElseDir
  }

  function CompileElse(form: ElseForm, els: seq<Out>): seq<Out> {
    if form.NoElse? then [] else [ElseLine(form)] + els
  }

  predicate Compiles(p: Prog, st: T.State) {
    && T.TranslateFrom(st, Flatten(p)) == Compile(p, st.args)
    && T.StateAfter(st, Flatten(p)) == T.State(st.scope, ArgsAfter(p, st.args))
  }

  /** The line loop, started inside any scope, compiles each block as a whole and comes back to the
      scope it started from; its parameter list is as before, or empty if a function has ended. */
  lemma {:induction false} LoopCompiles(p: Prog, st: T.State)
    ensures Compiles(p, st)
    decreases p
  {
    match p
    case Skip =>
    case PInstr(op, ops, next) =>
      LoopCompiles(next, st);
      LineCompiles(st, Instr(op, ops), next);
    case PCall(f, ops, next) =>
      LoopCompiles(next, st);
      LineCompiles(st, Call(f, ops), next);
    case PVar(x, val, next) =>
      LoopCompiles(next, st);
      LineCompiles(st, Var(x, val), next);
    case PIf(_, thn, form, els, next) =>
      var in' := T.State(st.scope + [KIf], st.args);
      LoopCompiles(thn, in');
      LoopCompiles(els, T.State(in'.scope, ArgsAfter(thn, st.args)));
      LoopCompiles(next, T.State(st.scope, ArgsAfterElse(form, els, ArgsAfter(thn, st.args))));
      IfCompiles(p, st);
    case PFor(_, _, _, _, _, _, body, next) =>
      LoopCompiles(body, T.State(st.scope + [KFor], st.args));
      LoopCompiles(next, T.State(st.scope, ArgsAfter(body, st.args)));
      ForCompiles(p, st);
    case PFunction(_, ps, body, next) =>
      LoopCompiles(body, T.State(st.scope + [KFunction], ps));
      LoopCompiles(next, T.State(st.scope, []));
      FunctionCompiles(p, st);
  }

  lemma ForCompiles(p: Prog, st: T.State)
    requires p.PFor? && Compiles(p.body, T.State(st.scope + [KFor], st.args))
    requires Compiles(p.next, T.State(st.scope, ArgsAfter(p.body, st.args)))
    ensures Compiles(p, st)
  {
    var in' := T.State(st.scope + [KFor], st.args);
    var out := T.State(in'.scope, ArgsAfter(p.body, st.args));
    assert in'.scope[..|st.scope|] == st.scope;
    BlockCompiles(st, For(p.v, p.start, p.condVar, p.bound, p.incVar, p.step), in', Flatten(p.body), out, p.next);
  }

  lemma FunctionCompiles(p: Prog, st: T.State)
    requires p.PFunction? && Compiles(p.next, T.State(st.scope, []))
    requires Compiles(p.body, T.State(st.scope + [KFunction], p.params))
    ensures Compiles(p, st)
  {
    var in' := T.State(st.scope + [KFunction], p.params);
    var out := T.State(in'.scope, ArgsAfter(p.body, p.params));
    assert in'.scope[..|st.scope|] == st.scope;
    BlockCompiles(st, Function(p.name, p.params), in', Flatten(p.body), out, p.next);
  }

  lemma LineCompiles(st: T.State, line: Line, next: Prog)
    requires T.NextState(st, line) == st && Compiles(next, st)
    ensures T.TranslateFrom(st, [line] + Flatten(next)) == [T.Emit(st, line)] + Compile(next, st.args)
    ensures T.StateAfter(st, [line] + Flatten(next)) == T.State(st.scope, ArgsAfter(next, st.args))
  {
    T.TranslateSplit(st, [line], Flatten(next));
  }

  /** An opening line, a body that leads from one inner state to another, the `end`, and the rest. */
  lemma BlockCompiles(st: T.State, line: Line, in': T.State, body: seq<Line>, out: T.State, next: Prog)
    requires T.NextState(st, line) == in' && T.StateAfter(in', body) == out
    requires out.scope != [] && Compiles(next, T.Pop(out))
    ensures T.TranslateFrom(st, [line] + body + [End] + Flatten(next))
            == [T.Emit(st, line)] + T.TranslateFrom(in', body) + [T.Emit(out, End)] + Compile(next, T.Pop(out).args)
    ensures T.StateAfter(st, [line] + body + [End] + Flatten(next))
            == T.State(T.Pop(out).scope, ArgsAfter(next, T.Pop(out).args))
  {
    var rest := Flatten(next);
    TranslateCons(st, line, body + ([End] + rest));
    T.TranslateSplit(in', body, [End] + rest);
    TranslateCons(out, End, rest);
    Reassociate(line, body, End, rest);
    Reassociate(T.Emit(st, line), T.TranslateFrom(in', body), T.Emit(out, End), Compile(next, T.Pop(out).args));
  }

  lemma TranslateCons(st: T.State, line: Line, rest: seq<Line>)
    ensures T.TranslateFrom(st, [line] + rest) == [T.Emit(st, line)] + T.TranslateFrom(T.NextState(st, line), rest)
    ensures T.StateAfter(st, [line] + rest) == T.StateAfter(T.NextState(st, line), rest)
  {
    assert ([line] + rest)[1..] == rest;
  }

  lemma IfCompiles(p: Prog, st: T.State)
    requires p.PIf?
    requires var in', a := T.State(st.scope + [KIf], st.args), ArgsAfter(p.thn, st.args);
             && Compiles(p.thn, in') && Compiles(p.els, T.State(in'.scope, a))
             && Compiles(p.next, T.State(st.scope, ArgsAfterElse(p.form, p.els, a)))
    ensures Compiles(p, st)
  {
    var in' := T.State(st.scope + [KIf], st.args);
    var mid' := T.State(in'.scope, ArgsAfter(p.thn, st.args));
    var out := T.State(in'.scope, ArgsAfterElse(p.form, p.els, mid'.args));
    var mid := if p.form.NoElse? then [] else [Else(p.form.SpacedElse?)] + Flatten(p.els);
    ElseCompiles(p.form, mid', p.els);
    T.TranslateSplit(in', Flatten(p.thn), mid);
    assert in'.scope[..|st.scope|] == st.scope;
    BlockCompiles(st, If(p.cond), in', Flatten(p.thn) + mid, out, p.next);
    Regroup(If(p.cond), Flatten(p.thn), mid, End, Flatten(p.next));
    Regroup(T.Emit(st, If(p.cond)), Compile(p.thn, st.args), CompileElse(p.form, Compile(p.els, mid'.args)), Endif,
            Compile(p.next, out.args));
  }

  lemma ElseCompiles(form: ElseForm, st: T.State, els: Prog)
    requires Compiles(els, st)
    ensures var mid := if form.NoElse? then [] else [Else(form.SpacedElse?)] + Flatten(els);
            && T.TranslateFrom(st, mid) == CompileElse(form, Compile(els, st.args))
            && T.StateAfter(st, mid) == T.State(st.scope, ArgsAfterElse(form, els, st.args))
  {
    T.TranslateSplit(st, [Else(form.SpacedElse?)], Flatten(els));
  }

  lemma Reassociate<A>(a: A, b: seq<A>, d: A, e: seq<A>)
    ensures [a] + b + [d] + e == [a] + (b + ([d] + e))
  {}

  lemma Regroup<A>(a: A, b: seq<A>, c: seq<A>, d: A, e: seq<A>)
    ensures [a] + b + c + [d] + e == [a] + (b + c) + [d] + e
  {}

  // ---- finding the end of a block ----

  lemma FindCons(k: Kind, o: Out, rest: seq<Out>, n: nat)
    ensures G.FindClose(k, [o] + rest, n)
            == if n == 0 && (G.Closes(k, o) || (k == KIf && o.ElseDir?)) then 0
               else 1 + G.FindClose(k, rest, if G.Closes(k, o) then n - 1 else if G.Opens(k, o) then n + 1 else n)
  {
    assert ([o] + rest)[1..] == rest;
  }

  lemma {:induction false} FindIgnoresSubst(k: Kind, ls: seq<Out>, rest: seq<Out>, n: nat, s: G.Subst)
    ensures G.FindClose(k, G.SubstLines(ls, s) + rest, n) == G.FindClose(k, ls + rest, n)
    decreases |ls|
  {
    if ls == [] {
      assert G.SubstLines(ls, s) == [];
    } else {
      var o := G.SubstLine(ls[0], s);
      assert G.SubstLines(ls, s) + rest == [o] + (G.SubstLines(ls[1..], s) + rest);
      assert ls + rest == [ls[0]] + (ls[1..] + rest);
      FindCons(k, o, G.SubstLines(ls[1..], s) + rest, n);
      FindCons(k, ls[0], ls[1..] + rest, n);
      var m := if G.Closes(k, o) && n > 0 then n - 1 else if G.Opens(k, o) then n + 1 else n;
      FindIgnoresSubst(k, ls[1..], rest, m, s);
    }
  }

  function Inside(k: Kind, o: Out, n: nat): nat { if G.Opens(k, o) then n + 1 else n }

  /** Searching steps over a bracketed block when it steps over the lines inside. */
  lemma FindBracket(k: Kind, j: Kind, o: Out, c: Out, all: seq<Out>, size: nat, rest: seq<Out>, n: nat)
    requires G.Opens(j, o) && G.Closes(j, c)
    requires G.FindClose(k, all, Inside(k, o, n)) == size + G.FindClose(k, [c] + rest, Inside(k, o, n))
    ensures G.FindClose(k, [o] + all, n) == size + 2 + G.FindClose(k, rest, n)
  {
    FindCons(k, o, all, n);
    FindCons(k, c, rest, Inside(k, o, n));
  }

  /** Searching for a closing line steps over any compiled block. */
  lemma {:induction false} FindSkips(k: Kind, p: Prog, args: seq<string>, rest: seq<Out>, n: nat)
    ensures G.FindClose(k, Compile(p, args) + rest, n) == |Compile(p, args)| + G.FindClose(k, rest, n)
    decreases p
  {
    var c := Compile(p, args);
    match p
    case Skip => assert c + rest == rest;
    case PInstr(_, _, next) => FindSkipsLine(k, p, args, rest, n);
    case PCall(_, _, next) => FindSkipsLine(k, p, args, rest, n);
    case PVar(_, _, next) => FindSkipsLine(k, p, args, rest, n);
    case PIf(_, _, _, _, _) => FindSkipsIf(k, p, args, rest, n);
    case PFor(v, _, _, _, _, _, body, next) =>
      var a := ArgsAfter(body, args);
      var b, x := Compile(body, args), Compile(next, a) + rest;
      FlattenBlock(c[0], b, Endr, Compile(next, a), rest);
      FindSkips(k, body, args, [Endr] + x, Inside(k, c[0], n));
      FindBracket(k, KFor, c[0], Endr, b + ([Endr] + x), |b|, x, n);
      FindSkips(k, next, a, rest, n);
    case PFunction(_, ps, body, next) =>
      var b, x := Compile(body, ps), Compile(next, []) + rest;
      FlattenBlock(c[0], b, Endm, Compile(next, []), rest);
      FindSkips(k, body, ps, [Endm] + x, Inside(k, c[0], n));
      FindBracket(k, KFunction, c[0], Endm, b + ([Endm] + x), |b|, x, n);
      FindSkips(k, next, [], rest, n);
  }

  lemma {:induction false} FindSkipsLine(k: Kind, p: Prog, args: seq<string>, rest: seq<Out>, n: nat)
    requires p.PInstr? || p.PCall? || p.PVar?
    ensures G.FindClose(k, Compile(p, args) + rest, n) == |Compile(p, args)| + G.FindClose(k, rest, n)
    decreases p, 0
  {
    var c, x := Compile(p, args), Compile(p.next, args) + rest;
    assert c + rest == [c[0]] + x;
    FindCons(k, c[0], x, n);
    FindSkips(k, p.next, args, rest, n);
  }

  lemma {:induction false} FindSkipsIf(k: Kind, p: Prog, args: seq<string>, rest: seq<Out>, n: nat)
    requires p.PIf?
    ensures G.FindClose(k, Compile(p, args) + rest, n) == |Compile(p, args)| + G.FindClose(k, rest, n)
    decreases p, 0
  {
    var a := ArgsAfter(p.thn, args);
    var a' := ArgsAfterElse(p.form, p.els, a);
    var o := IfDir(T.EscapeToks(p.cond, args));
    var t, e, x := Compile(p.thn, args), Compile(p.els, a), Compile(p.next, a') + rest;
    var m, mid, tail := Inside(k, o, n), CompileElse(p.form, e), [Endif] + x;
    FindSkips(k, p.thn, args, mid + tail, m);
    FindSkips(k, p.els, a, tail, m);
    FindSkipsElse(k, p.form, e, tail, m);
    FindBracket(k, KIf, o, Endif, t + (mid + tail), |t| + |mid|, x, n);
    FindSkips(k, p.next, a', rest, n);
    FlattenIf(o, t, mid, Compile(p.next, a'), rest);
  }

  lemma FlattenBlock(o: Out, b: seq<Out>, c: Out, x: seq<Out>, rest: seq<Out>)
    ensures ([o] + b + [c] + x) + rest == [o] + (b + ([c] + (x + rest)))
  {}

  lemma FlattenIf(o: Out, t: seq<Out>, mid: seq<Out>, x: seq<Out>, rest: seq<Out>)
    ensures ([o] + t + mid + [Endif] + x) + rest == [o] + (t + (mid + ([Endif] + (x + rest))))
  {}

  lemma FindSkipsElse(k: Kind, form: ElseForm, e: seq<Out>, tail: seq<Out>, m: nat)
    requires k == KIf ==> m > 0
    requires G.FindClose(k, e + tail, m) == |e| + G.FindClose(k, tail, m)
    ensures G.FindClose(k, CompileElse(form, e) + tail, m) == |CompileElse(form, e)| + G.FindClose(k, tail, m)
  {
    if form.NoElse? {
      assert CompileElse(form, e) + tail == tail;
    } else {
      FindCons(k, ElseLine(form), e + tail, m);
      assert CompileElse(form, e) + tail == [ElseLine(form)] + (e + tail);
    }
  }
}
