/** What a converted script does, for every program: assembling it is running the program with the words the
    converter left in the text. */
module Sp3Text {
  import opened Sp3Syntax
  import opened Sp3Blocks
  import T = Sp3Translator
  import G = GasExpansion
  import M = Sp3Meaning

  // ---- substitution, from the outermost expansion inwards ----

  function SubstAll(ls: seq<Out>, substs: seq<G.Subst>): (r: seq<Out>)
    ensures |r| == |ls|
  {
    if substs == [] then ls else G.SubstLines(SubstAll(ls, substs[..|substs| - 1]), substs[|substs| - 1])
  }

  function SubstSeqs(ts: seq<Tok>, substs: seq<G.Subst>): seq<Tok> {
    seq(|ts|, i requires 0 <= i < |ts| => M.SubstSeq(ts[i], substs))
  }

  /** One line after all the expansions around it. */
  function TextLine(o: Out, substs: seq<G.Subst>): Out {
    match o
    case Irp(v, values) => Irp(v, SubstSeqs(values, substs))
    case IfDir(c) => IfDir(SubstSeqs(c, substs))
    case Set(x, val) => Set(M.SubstSeq(x, substs), SubstSeqs(val, substs))
    case Stmt(h, ops) => Stmt(M.SubstSeq(h, substs), SubstSeqs(ops, substs))
    case _ => o
  }

  lemma TextWords(ts: seq<Tok>, args: seq<string>, substs: seq<G.Subst>)
    ensures SubstSeqs(T.EscapeToks(ts, args), substs) == M.Words(ts, M.Text(args, substs))
  {}

  lemma SubstSeqsStep(ts: seq<Tok>, substs: seq<G.Subst>)
    requires substs != []
    ensures SubstSeqs(ts, substs) == G.SubstToks(SubstSeqs(ts, substs[..|substs| - 1]), substs[|substs| - 1])
  {}

  lemma SubstSeqsNothing(ts: seq<Tok>)
    ensures SubstSeqs(ts, []) == ts
  {}

  lemma TextLineStep(o: Out, substs: seq<G.Subst>)
    requires substs != []
    ensures TextLine(o, substs) == G.SubstLine(TextLine(o, substs[..|substs| - 1]), substs[|substs| - 1])
  {
    match o
    case Irp(_, ts) => SubstSeqsStep(ts, substs);
    case IfDir(ts) => SubstSeqsStep(ts, substs);
    case Set(_, ts) => SubstSeqsStep(ts, substs);
    case Stmt(_, ts) => SubstSeqsStep(ts, substs);
    case _ =>
  }

  lemma TextLineNothing(o: Out)
    ensures TextLine(o, []) == o
  {
    match o
    case Irp(_, ts) => SubstSeqsNothing(ts);
    case IfDir(ts) => SubstSeqsNothing(ts);
    case Set(_, ts) => SubstSeqsNothing(ts);
    case Stmt(_, ts) => SubstSeqsNothing(ts);
    case _ =>
  }

  lemma {:induction false} SubstAllAt(ls: seq<Out>, substs: seq<G.Subst>, i: nat)
    requires i < |ls|
    ensures SubstAll(ls, substs)[i] == TextLine(ls[i], substs)
    decreases |substs|
  {
    if substs == [] {
      TextLineNothing(ls[i]);
    } else {
      SubstAllAt(ls, substs[..|substs| - 1], i);
      TextLineStep(ls[i], substs);
    }
  }

  lemma SubstAllAppend(a: seq<Out>, b: seq<Out>, substs: seq<G.Subst>)
    ensures SubstAll(a + b, substs) == SubstAll(a, substs) + SubstAll(b, substs)
  {
    forall i | 0 <= i < |a + b|
      ensures SubstAll(a + b, substs)[i] == (SubstAll(a, substs) + SubstAll(b, substs))[i]
    {
      SubstAllAt(a + b, substs, i);
      if i < |a| { SubstAllAt(a, substs, i); } else { SubstAllAt(b, substs, i - |a|); }
    }
  }

  lemma SubstAllCons(o: Out, ls: seq<Out>, substs: seq<G.Subst>)
    ensures SubstAll([o] + ls, substs) == [TextLine(o, substs)] + SubstAll(ls, substs)
  {
    SubstAllAppend([o], ls, substs);
    SubstAllAt([o], substs, 0);
  }

  lemma {:induction false} FindIgnoresAll(k: Kind, ls: seq<Out>, rest: seq<Out>, n: nat, substs: seq<G.Subst>)
    ensures G.FindClose(k, SubstAll(ls, substs) + rest, n) == G.FindClose(k, ls + rest, n)
    decreases |substs|
  {
    if substs != [] {
      FindIgnoresSubst(k, SubstAll(ls, substs[..|substs| - 1]), rest, n, substs[|substs| - 1]);
      FindIgnoresAll(k, ls, rest, n, substs[..|substs| - 1]);
    }
  }

  // ---- the lines of a program in place ----

  /** The converted lines of a program, inside the given expansions. */
  function Image(p: Prog, args: seq<string>, substs: seq<G.Subst>): seq<Out> { SubstAll(Compile(p, args), substs) }

  /** One more expansion around a program. */
  lemma ImageInside(p: Prog, args: seq<string>, substs: seq<G.Subst>, s: G.Subst)
    ensures Image(p, args, substs + [s]) == G.SubstLines(Image(p, args, substs), s)
    ensures Image(p, args, substs + [s]) + [] == Image(p, args, substs + [s])
  {
    var inner := substs + [s];
    assert inner[..|inner| - 1] == substs;
  }

  lemma FindInImage(k: Kind, p: Prog, args: seq<string>, substs: seq<G.Subst>, rest: seq<Out>)
    ensures G.FindClose(k, Image(p, args, substs) + rest, 0)
            == |Image(p, args, substs)| + G.FindClose(k, rest, 0)
  {
    FindIgnoresAll(k, Compile(p, args), rest, 0, substs);
    FindSkips(k, p, args, rest, 0);
  }

  lemma Associate<A>(a: seq<A>, b: seq<A>, c: seq<A>)
    ensures (a + b) + c == a + (b + c)
  {}

  /** A line and what follows it. */
  lemma LineImage(o: Out, x: seq<Out>, substs: seq<G.Subst>, rest: seq<Out>)
    ensures SubstAll([o] + x, substs) + rest == [TextLine(o, substs)] + (SubstAll(x, substs) + rest)
  {
    SubstAllCons(o, x, substs);
    Associate([TextLine(o, substs)], SubstAll(x, substs), rest);
  }

  /** A block and what follows it. */
  lemma BlockImage(o: Out, b: seq<Out>, c: Out, x: seq<Out>, substs: seq<G.Subst>, rest: seq<Out>)
    ensures SubstAll([o] + b + [c] + x, substs) + rest
            == [TextLine(o, substs)] + (SubstAll(b, substs) + ([TextLine(c, substs)] + (SubstAll(x, substs) + rest)))
  {
    Reassociate(o, b, c, x);
    LineImage(o, b + ([c] + x), substs, rest);
    SubstAllAppend(b, [c] + x, substs);
    Associate(SubstAll(b, substs), SubstAll([c] + x, substs), rest);
    LineImage(c, x, substs, rest);
  }

  // ---- states ----

  function DefinitionOf(fun: M.Fun): G.Definition {
    G.Definition(fun.params, Image(fun.body, fun.params, if fun.scope.Text? then fun.scope.substs else []))
  }

  /** The assembler's state, in which functions are macros. */
  function StateOf(w: M.World): G.State {
    G.State(w.symbols, map f | f in w.funs :: DefinitionOf(w.funs[f]), w.events)
  }

  predicate AllText(w: M.World) { forall f :: f in w.funs ==> w.funs[f].scope.Text? }

  /** The assembler goes on with the rest from where the run of the program ended. */
  function Onward(r: G.Result<M.World>, depth: nat, rest: seq<Out>, ev: G.Evaluator): G.Result<G.State> {
    if r.Failed? then G.Failed else G.Assemble(depth, rest, StateOf(r.value), ev)
  }

  predicate Executes(depth: nat, ls: seq<Out>, r: G.Result<M.World>, w: M.World, rest: seq<Out>, ev: G.Evaluator) {
    && G.Assemble(depth, ls, StateOf(w), ev) == Onward(r, depth, rest, ev)
    && (r.Ok? ==> AllText(r.value))
  }

  /** The assembler ended where the run did. */
  predicate Ends(s: G.Result<G.State>, r: G.Result<M.World>) {
    s == (if r.Failed? then G.Failed else G.Ok(StateOf(r.value))) && (r.Ok? ==> AllText(r.value))
  }

  // ---- one line or block at a time, in the assembler ----

  function Then(r: G.Result<G.State>, depth: nat, rest: seq<Out>, ev: G.Evaluator): G.Result<G.State> {
    if r.Failed? then r else G.Assemble(depth, rest, r.value, ev)
  }

  lemma AssembleSet(depth: nat, x: Tok, val: seq<Tok>, rest: seq<Out>, g: G.State, ev: G.Evaluator)
    ensures G.Assemble(depth, [Set(x, val)] + rest, g, ev)
            == if x.slashes != 0 then G.Failed
               else G.Assemble(depth, rest, g.(symbols := g.symbols[x.name := ev(val, g.symbols)]), ev)
  {
    assert ([Set(x, val)] + rest)[1..] == rest;
  }

  lemma AssembleStmt(depth: nat, h: Tok, ops: seq<Tok>, rest: seq<Out>, g: G.State, ev: G.Evaluator)
    ensures G.Assemble(depth, [Stmt(h, ops)] + rest, g, ev)
            == if h.slashes == 0 && h.name in g.macros then
                 var m := g.macros[h.name];
                 if depth == 0 || |ops| > |m.params| then G.Failed
                 else Then(G.Assemble(depth - 1, G.SubstLines(m.body, G.Bind(m.params, ops)), g, ev), depth, rest, ev)
               else G.Assemble(depth, rest, g.(events := g.events + [G.Event(h, ops, g.symbols)]), ev)
  {
    assert ([Stmt(h, ops)] + rest)[1..] == rest;
  }

  lemma AssembleFor(depth: nat, v: string, values: seq<Tok>, body: seq<Out>, rest: seq<Out>, g: G.State, ev: G.Evaluator)
    requires G.FindClose(KFor, body + ([Endr] + rest), 0) == |body| + G.FindClose(KFor, [Endr] + rest, 0)
    ensures G.Assemble(depth, [Irp(v, values)] + (body + ([Endr] + rest)), g, ev)
            == if values == [] then G.Failed else Then(G.Repeat(depth, v, values, body, g, ev), depth, rest, ev)
  {
    var ls := [Irp(v, values)] + (body + ([Endr] + rest));
    assert ls[1..] == body + ([Endr] + rest);
    assert ls[1..1 + |body|] == body;
    assert ls[|body| + 2..] == rest;
  }

  lemma AssembleMacro(depth: nat, f: string, ps: seq<string>, body: seq<Out>, rest: seq<Out>, g: G.State, ev: G.Evaluator)
    requires G.FindClose(KFunction, body + ([Endm] + rest), 0) == |body| + G.FindClose(KFunction, [Endm] + rest, 0)
    ensures G.Assemble(depth, [Macro(f, ps)] + (body + ([Endm] + rest)), g, ev)
            == if f in g.macros then G.Failed
               else G.Assemble(depth, rest, g.(macros := g.macros[f := G.Definition(ps, body)]), ev)
  {
    var ls := [Macro(f, ps)] + (body + ([Endm] + rest));
    assert ls[1..] == body + ([Endm] + rest);
    assert ls[1..1 + |body|] == body;
    assert ls[|body| + 2..] == rest;
  }

  lemma AssembleSplit(depth: nat, ls: seq<Out>, thn: seq<Out>, els: seq<Out>, rest: seq<Out>, g: G.State, ev: G.Evaluator)
    requires ls != [] && ls[0].IfDir? && G.Split(ls) == G.Conditional(thn, els, rest)
    ensures G.Assemble(depth, ls, g, ev)
            == Then(G.Assemble(depth, if ev(ls[0].cond, g.symbols) != 0 then thn else els, g, ev), depth, rest, ev)
  {}

  lemma AssembleIf(depth: nat, c: seq<Tok>, thn: seq<Out>, rest: seq<Out>, g: G.State, ev: G.Evaluator)
    requires G.FindClose(KIf, thn + ([Endif] + rest), 0) == |thn| + G.FindClose(KIf, [Endif] + rest, 0)
    ensures G.Assemble(depth, [IfDir(c)] + (thn + ([Endif] + rest)), g, ev)
            == Then(G.Assemble(depth, if ev(c, g.symbols) != 0 then thn else [], g, ev), depth, rest, ev)
  {
    var ls := [IfDir(c)] + (thn + ([Endif] + rest));
    assert ls[1..] == thn + ([Endif] + rest);
    assert ls[1..|thn| + 1] == thn;
    assert ls[|thn| + 2..] == rest;
    AssembleSplit(depth, ls, thn, [], rest, g, ev);
  }

  lemma IfElseSlices(c: seq<Tok>, thn: seq<Out>, els: seq<Out>, rest: seq<Out>, tail: seq<Out>, ls: seq<Out>)
    requires tail == els + ([Endif] + rest) && ls == [IfDir(c)] + (thn + ([ElseDir] + tail))
    ensures ls[0] == IfDir(c) && ls[1..] == thn + ([ElseDir] + tail)
    ensures ls[1..|thn| + 1] == thn && ls[|thn| + 1] == ElseDir && ls[|thn| + 2..] == tail
    ensures var last := |thn| + 2 + |els|;
            ls[|thn| + 2..last] == els && ls[last] == Endif && ls[last + 1..] == rest
  {}

  lemma AssembleIfElse(depth: nat, c: seq<Tok>, thn: seq<Out>, els: seq<Out>, rest: seq<Out>, tail: seq<Out>, ls: seq<Out>,
                       g: G.State, ev: G.Evaluator)
    requires tail == els + ([Endif] + rest) && ls == [IfDir(c)] + (thn + ([ElseDir] + tail))
    requires G.FindClose(KIf, thn + ([ElseDir] + tail), 0) == |thn|
    requires G.FindClose(KIf, tail, 0) == |els|
    ensures G.Assemble(depth, ls, g, ev)
            == Then(G.Assemble(depth, if ev(c, g.symbols) != 0 then thn else els, g, ev), depth, rest, ev)
  {
    IfElseSlices(c, thn, els, rest, tail, ls);
    AssembleSplit(depth, ls, thn, els, rest, g, ev);
  }

  // ---- the simulation ----

  /** Assembling the image of a program, and whatever follows, is running the program on the text. */
  lemma {:induction false} RunsAsText(depth: nat, p: Prog, args: seq<string>, substs: seq<G.Subst>, w: M.World,
                                      rest: seq<Out>, ev: G.Evaluator)
    requires AllText(w)
    ensures Executes(depth, Image(p, args, substs) + rest, M.Run(depth, p, M.Text(args, substs), w, ev), w, rest, ev)
    decreases depth, 1, p, 5
  {
    match p
    case Skip => assert Image(p, args, substs) + rest == rest;
    case PInstr(op, ops, next) =>
      LineImage(Stmt(T.EscapeTok(op, args), T.EscapeToks(ops, args)), Compile(next, args), substs, rest);
      TextWords(ops, args, substs);
      StatementFirst(depth, M.Word(op, M.Text(args, substs)), M.Words(ops, M.Text(args, substs)), p, args, substs, w, rest, ev);
    case PCall(f, ops, next) =>
      LineImage(Stmt(Plain(f), T.EscapeToks(CallArgs(ops), args)), Compile(next, args), substs, rest);
      TextWords(CallArgs(ops), args, substs);
      BareStays(Plain(f), substs);
      BareStays(Tok(0, f, true), substs);
      StatementFirst(depth, Plain(f), M.Words(CallArgs(ops), M.Text(args, substs)), p, args, substs, w, rest, ev);
    case PVar(x, val, next) =>
      VarAsText(depth, p, args, substs, w, rest, ev);
    case PIf(_, _, _, _, _) => IfAsText(depth, p, args, substs, w, rest, ev);
    case PFor(_, _, _, _, _, _, _, _) => ForAsText(depth, p, args, substs, w, rest, ev);
    case PFunction(_, _, _, _) => FunctionAsText(depth, p, args, substs, w, rest, ev);
  }

  lemma {:induction false} BareStays(t: Tok, substs: seq<G.Subst>)
    requires t.slashes == 0
    ensures M.SubstSeq(t, substs) == t
    decreases |substs|
  {
    if substs != [] { BareStays(t, substs[..|substs| - 1]); }
  }

  lemma {:induction false} StatementFirst(depth: nat, head: Tok, ops: seq<Tok>, p: Prog, args: seq<string>,
      substs: seq<G.Subst>, w: M.World, rest: seq<Out>, ev: G.Evaluator)
    requires AllText(w) && (p.PInstr? || p.PCall?)
    requires M.Run(depth, p, M.Text(args, substs), w, ev)
             == var r := M.Statement(depth, head, ops, w, ev);
                if r.Failed? then r else M.Run(depth, p.next, M.Text(args, substs), r.value, ev)
    ensures Executes(depth, [Stmt(head, ops)] + (Image(p.next, args, substs) + rest),
                     M.Run(depth, p, M.Text(args, substs), w, ev), w, rest, ev)
    decreases depth, 1, p, 3
  {
    var x := Image(p.next, args, substs) + rest;
    StatementAsText(depth, head, ops, w, x, ev);
    var r := M.Statement(depth, head, ops, w, ev);
    if r.Ok? { RunsAsText(depth, p.next, args, substs, r.value, rest, ev); }
  }

  /** A statement is a macro call or reaches the assembler proper. */
  lemma {:induction false} StatementAsText(depth: nat, head: Tok, ops: seq<Tok>, w: M.World, rest: seq<Out>, ev: G.Evaluator)
    requires AllText(w)
    ensures Executes(depth, [Stmt(head, ops)] + rest, M.Statement(depth, head, ops, w, ev), w, rest, ev)
    decreases depth, 0
  {
    if head.slashes == 0 && head.name in w.funs {
      var fun := w.funs[head.name];
      if depth > 0 && |ops| <= |fun.params| {
        var r := ExpansionAsText(depth - 1, fun.body, fun.params, fun.scope.substs, G.Bind(fun.params, ops), w, ev);
        CallUnfolds(depth, head, ops, w, r, rest, ev);
      } else {
        AssembleStmt(depth, head, ops, rest, StateOf(w), ev);
      }
    } else {
      AssembleStmt(depth, head, ops, rest, StateOf(w), ev);
    }
  }

  /** A call is the body of its function, and then the rest. */
  lemma CallUnfolds(depth: nat, head: Tok, ops: seq<Tok>, w: M.World, r: G.Result<M.World>, rest: seq<Out>, ev: G.Evaluator)
    requires depth > 0 && head.slashes == 0 && head.name in w.funs && |ops| <= |w.funs[head.name].params| && AllText(w)
    requires var fun := w.funs[head.name]; var s := G.Bind(fun.params, ops);
             && r == M.Run(depth - 1, fun.body, M.Text(fun.params, fun.scope.substs + [s]), w, ev)
             && Ends(G.Assemble(depth - 1, G.SubstLines(DefinitionOf(fun).body, s), StateOf(w), ev), r)
    ensures Executes(depth, [Stmt(head, ops)] + rest, M.Statement(depth, head, ops, w, ev), w, rest, ev)
  {
    AssembleStmt(depth, head, ops, rest, StateOf(w), ev);
  }

  lemma {:induction false} VarAsText(depth: nat, p: Prog, args: seq<string>, substs: seq<G.Subst>, w: M.World,
                                     rest: seq<Out>, ev: G.Evaluator)
    requires AllText(w) && p.PVar?
    ensures Executes(depth, Image(p, args, substs) + rest, M.Run(depth, p, M.Text(args, substs), w, ev), w, rest, ev)
    decreases depth, 1, p, 3
  {
    var x, val := M.Word(p.target, M.Text(args, substs)), M.Words(p.value, M.Text(args, substs));
    LineImage(Set(T.EscapeTok(p.target, args), T.EscapeToks(p.value, args)), Compile(p.next, args), substs, rest);
    TextWords(p.value, args, substs);
    AssembleSet(depth, x, val, Image(p.next, args, substs) + rest, StateOf(w), ev);
    if x.slashes == 0 {
      RunsAsText(depth, p.next, args, substs, w.(symbols := w.symbols[x.name := ev(val, w.symbols)]), rest, ev);
    }
  }

  lemma {:induction false} FunctionAsText(depth: nat, p: Prog, args: seq<string>, substs: seq<G.Subst>, w: M.World,
                                          rest: seq<Out>, ev: G.Evaluator)
    requires AllText(w) && p.PFunction?
    ensures Executes(depth, Image(p, args, substs) + rest, M.Run(depth, p, M.Text(args, substs), w, ev), w, rest, ev)
    decreases depth, 1, p, 3
  {
    var f, x := p.name, Image(p.next, [], substs) + rest;
    BlockImage(Macro(f, p.params), Compile(p.body, p.params), Endm, Compile(p.next, []), substs, rest);
    FindInImage(KFunction, p.body, p.params, substs, [Endm] + x);
    AssembleMacro(depth, f, p.params, Image(p.body, p.params, substs), x, StateOf(w), ev);
    if f !in w.funs {
      var fun := M.Fun(p.params, p.body, M.Text(args, substs));
      StateDefines(w, f, fun);
      RunsAsText(depth, p.next, [], substs, w.(funs := w.funs[f := fun]), rest, ev);
    }
  }

  lemma StateDefines(w: M.World, f: string, fun: M.Fun)
    requires AllText(w) && fun.scope.Text?
    ensures AllText(w.(funs := w.funs[f := fun]))
    ensures StateOf(w.(funs := w.funs[f := fun])) == StateOf(w).(macros := StateOf(w).macros[f := DefinitionOf(fun)])
  {}

  lemma {:induction false} ForAsText(depth: nat, p: Prog, args: seq<string>, substs: seq<G.Subst>, w: M.World,
                                     rest: seq<Out>, ev: G.Evaluator)
    requires AllText(w) && p.PFor?
    ensures Executes(depth, Image(p, args, substs) + rest, M.Run(depth, p, M.Text(args, substs), w, ev), w, rest, ev)
    decreases depth, 1, p, 3
  {
    var args' := ArgsAfter(p.body, args);
    var values := T.Render(T.IrpValues(p.start, p.bound, p.step));
    var b, x := Image(p.body, args, substs), Image(p.next, args', substs) + rest;
    BlockImage(Irp(p.v, values), Compile(p.body, args), Endr, Compile(p.next, args'), substs, rest);
    ValuesStay(T.IrpValues(p.start, p.bound, p.step), substs);
    FindInImage(KFor, p.body, args, substs, [Endr] + x);
    AssembleFor(depth, p.v, values, b, x, StateOf(w), ev);
    if p.start < p.bound {
      EachAsText(depth, p.v, T.IrpValues(p.start, p.bound, p.step), p.body, args, substs, w, ev);
      LoopIsEach(depth, p.v, p.start, p.bound, p.step, p.body, M.Text(args, substs), w, ev);
      var r := M.RunLoop(depth, p.v, p.start, p.bound, p.step, p.body, M.Text(args, substs), w, ev);
      if r.Ok? { RunsAsText(depth, p.next, args', substs, r.value, rest, ev); }
    }
  }

  lemma ValuesStay(values: seq<nat>, substs: seq<G.Subst>)
    ensures SubstSeqs(T.Render(values), substs) == T.Render(values)
  {
    forall i | 0 <= i < |values|
      ensures M.SubstSeq(T.Render(values)[i], substs) == T.Render(values)[i]
    {
      BareStays(T.Render(values)[i], substs);
    }
  }

  /** The iterations of a loop, value by value. */
  function RunEach(depth: nat, v: string, values: seq<nat>, body: Prog, sc: M.Scope, w: M.World, ev: G.Evaluator)
    : G.Result<M.World>
  {
    if values == [] then G.Ok(w)
    else
      match M.Run(depth, body, M.InLoop(sc, v, Plain(Dec(values[0]))), w, ev)
      case Failed => G.Failed
      case Ok(w') => RunEach(depth, v, values[1..], body, sc, w', ev)
  }

  lemma {:induction false} LoopIsEach(depth: nat, v: string, n: nat, bound: nat, step: Pos, body: Prog, sc: M.Scope,
                                      w: M.World, ev: G.Evaluator)
    ensures M.RunLoop(depth, v, n, bound, step, body, sc, w, ev)
         == RunEach(depth, v, T.IrpValues(n, bound, step), body, sc, w, ev)
    decreases if n < bound then bound - n else 0
  {
    if n < bound {
      var values := T.IrpValues(n, bound, step);
      assert values[0] == n && values[1..] == T.IrpValues(n + step, bound, step);
      var r := M.Run(depth, body, M.InLoop(sc, v, Plain(Dec(n))), w, ev);
      if r.Ok? { LoopIsEach(depth, v, n + step, bound, step, body, sc, r.value, ev); }
    }
  }

  /** The copies of a loop body do what the iterations do. */
  predicate EachExecutes(depth: nat, v: string, values: seq<nat>, body: Prog, args: seq<string>, substs: seq<G.Subst>,
                         w: M.World, ev: G.Evaluator)
  {
    Ends(G.Repeat(depth, v, T.Render(values), Image(body, args, substs), StateOf(w), ev),
         RunEach(depth, v, values, body, M.Text(args, substs), w, ev))
  }

  lemma {:induction false} EachAsText(depth: nat, v: string, values: seq<nat>, body: Prog, args: seq<string>,
                                      substs: seq<G.Subst>, w: M.World, ev: G.Evaluator)
    requires AllText(w)
    ensures EachExecutes(depth, v, values, body, args, substs, w, ev)
    decreases depth, 1, body, 7 + |values|
  {
    if values != [] {
      var r := ExpansionAsText(depth, body, args, substs, map[v := Plain(Dec(values[0]))], w, ev);
      if r.Ok? { EachAsText(depth, v, values[1..], body, args, substs, r.value, ev); }
      EachUnfolds(depth, v, values, body, args, substs, w, r, ev);
    }
  }

  /** One iteration and the remaining ones. */
  lemma EachUnfolds(depth: nat, v: string, values: seq<nat>, body: Prog, args: seq<string>, substs: seq<G.Subst>,
                    w: M.World, r: G.Result<M.World>, ev: G.Evaluator)
    requires values != [] && r == M.Run(depth, body, M.Text(args, substs + [map[v := Plain(Dec(values[0]))]]), w, ev)
    requires Ends(G.Assemble(depth, G.SubstLines(Image(body, args, substs), map[v := Plain(Dec(values[0]))]), StateOf(w), ev), r)
    requires r.Ok? ==> EachExecutes(depth, v, values[1..], body, args, substs, r.value, ev)
    ensures EachExecutes(depth, v, values, body, args, substs, w, ev)
  {
    assert T.Render(values)[0] == Plain(Dec(values[0])) && T.Render(values)[1..] == T.Render(values[1..]);
  }

  /** A program inside one more expansion, assembled by itself. */
  lemma {:induction false} ExpansionAsText(depth: nat, body: Prog, args: seq<string>, substs: seq<G.Subst>, one: G.Subst,
                                           w: M.World, ev: G.Evaluator)
    returns (r: G.Result<M.World>)
    requires AllText(w)
    ensures r == M.Run(depth, body, M.Text(args, substs + [one]), w, ev)
    ensures Ends(G.Assemble(depth, G.SubstLines(Image(body, args, substs), one), StateOf(w), ev), r)
    decreases depth, 1, body, 6
  {
    ImageInside(body, args, substs, one);
    RunsAsText(depth, body, args, substs + [one], w, [], ev);
    r := M.Run(depth, body, M.Text(args, substs + [one]), w, ev);
  }

  lemma {:induction false} IfAsText(depth: nat, p: Prog, args: seq<string>, substs: seq<G.Subst>, w: M.World,
                                    rest: seq<Out>, ev: G.Evaluator)
    requires AllText(w) && p.PIf?
    ensures Executes(depth, Image(p, args, substs) + rest, M.Run(depth, p, M.Text(args, substs), w, ev), w, rest, ev)
    decreases depth, 1, p, 4
  {
    var args' := ArgsAfterElse(p.form, p.els, ArgsAfter(p.thn, args));
    var x := Image(p.next, args', substs) + rest;
    BranchesAsText(depth, p, args, substs, w, x, ev);
    IfImage(p, args, substs, rest);
    var r := M.RunIf(depth, p, M.Text(args, substs), w, ev);
    if r.Ok? { RunsAsText(depth, p.next, args', substs, r.value, rest, ev); }
  }

  /** The lines between `.if` and `.endif`. */
  function Branches(p: Prog, args: seq<string>, substs: seq<G.Subst>): seq<Out>
    requires p.PIf?
  {
    var t, e := Image(p.thn, args, substs), Image(p.els, ArgsAfter(p.thn, args), substs);
    if p.form.NoElse? then t else t + ([ElseLine(p.form)] + e)
  }

  lemma IfImage(p: Prog, args: seq<string>, substs: seq<G.Subst>, rest: seq<Out>)
    requires p.PIf?
    ensures Image(p, args, substs) + rest
            == [IfDir(M.Words(p.cond, M.Text(args, substs)))]
               + (Branches(p, args, substs)
                  + ([Endif] + (Image(p.next, ArgsAfterElse(p.form, p.els, ArgsAfter(p.thn, args)), substs) + rest)))
  {
    var a := ArgsAfter(p.thn, args);
    var t, e, x := Compile(p.thn, args), Compile(p.els, a), Compile(p.next, ArgsAfterElse(p.form, p.els, a));
    var o := IfDir(T.EscapeToks(p.cond, args));
    Regroup(o, t, CompileElse(p.form, e), Endif, x);
    BlockImage(o, t + CompileElse(p.form, e), Endif, x, substs, rest);
    TextWords(p.cond, args, substs);
    SubstAllAppend(t, CompileElse(p.form, e), substs);
    if p.form.NoElse? {
      assert SubstAll(t, substs) + SubstAll([], substs) == SubstAll(t, substs);
    } else {
      SubstAllCons(ElseLine(p.form), e, substs);
      ElseLineStays(p.form, substs);
    }
  }

  lemma ElseLineStays(form: ElseForm, substs: seq<G.Subst>)
    ensures TextLine(ElseLine(form), substs) == ElseLine(form)
  {
    BareStays(Plain("else"), substs);
    assert SubstSeqs([], substs) == [];
  }

  /** The assembler runs one of the branches and goes on behind the `.endif`. */
  lemma {:induction false} BranchesAsText(depth: nat, p: Prog, args: seq<string>, substs: seq<G.Subst>, w: M.World,
                                          x: seq<Out>, ev: G.Evaluator)
    requires AllText(w) && p.PIf?
    ensures Executes(depth, [IfDir(M.Words(p.cond, M.Text(args, substs)))] + (Branches(p, args, substs) + ([Endif] + x)),
                     M.RunIf(depth, p, M.Text(args, substs), w, ev), w, x, ev)
    decreases depth, 1, p, 3
  {
    var c, a := M.Words(p.cond, M.Text(args, substs)), ArgsAfter(p.thn, args);
    var t, e := Image(p.thn, args, substs), Image(p.els, a, substs);
    if p.form.SpacedElse? {
      var tail := e + ([Endif] + x);
      FindInImage(KIf, p.els, a, substs, [Endif] + x);
      FindInImage(KIf, p.thn, args, substs, [ElseDir] + tail);
      FindCons(KIf, Endif, x, 0);
      FindCons(KIf, ElseDir, tail, 0);
      Associate(t, [ElseDir] + e, [Endif] + x);
      Associate([ElseDir], e, [Endif] + x);
      AssembleIfElse(depth, c, t, e, x, tail, [IfDir(c)] + (t + ([ElseDir] + tail)), StateOf(w), ev);
      BranchAsText(depth, p, if ev(c, w.symbols) != 0 then p.thn else p.els,
                   if ev(c, w.symbols) != 0 then args else a, substs, w, ev);
    } else {
      FindBranches(p, args, substs, [Endif] + x);
      AssembleIf(depth, c, Branches(p, args, substs), x, StateOf(w), ev);
      if p.form.NoElse? {
        BranchAsText(depth, p, p.thn, args, substs, w, ev);
      } else {
        BareElseAsText(depth, p, args, substs, w, ev);
      }
    }
  }

  lemma FindBranches(p: Prog, args: seq<string>, substs: seq<G.Subst>, rest: seq<Out>)
    requires p.PIf? && !p.form.SpacedElse?
    ensures G.FindClose(KIf, Branches(p, args, substs) + rest, 0) == |Branches(p, args, substs)| + G.FindClose(KIf, rest, 0)
  {
    var t, e := Image(p.thn, args, substs), Image(p.els, ArgsAfter(p.thn, args), substs);
    if p.form.NoElse? {
      FindInImage(KIf, p.thn, args, substs, rest);
    } else {
      var o := ElseLine(p.form);
      Associate(t, [o] + e, rest);
      Associate([o], e, rest);
      FindInImage(KIf, p.thn, args, substs, [o] + (e + rest));
      FindCons(KIf, o, e + rest, 0);
      FindInImage(KIf, p.els, ArgsAfter(p.thn, args), substs, rest);
    }
  }

  lemma {:induction false} BranchAsText(depth: nat, p: Prog, q: Prog, args: seq<string>, substs: seq<G.Subst>, w: M.World,
                                        ev: G.Evaluator)
    requires AllText(w) && p.PIf? && (q == p.thn || q == p.els)
    ensures Executes(depth, Image(q, args, substs), M.Run(depth, q, M.Text(args, substs), w, ev), w, [], ev)
    decreases depth, 1, p, 1
  {
    RunsAsText(depth, q, args, substs, w, [], ev);
    assert Image(q, args, substs) + [] == Image(q, args, substs);
  }

  /** Without a `.else` both branches, with the bare word between them, are the first branch. */
  lemma {:induction false} BareElseAsText(depth: nat, p: Prog, args: seq<string>, substs: seq<G.Subst>, w: M.World,
                                          ev: G.Evaluator)
    requires AllText(w) && p.PIf? && p.form.BareElse?
    ensures var c := M.Words(p.cond, M.Text(args, substs));
            Executes(depth, if ev(c, w.symbols) != 0 then Branches(p, args, substs) else [],
                     M.RunIf(depth, p, M.Text(args, substs), w, ev), w, [], ev)
    decreases depth, 1, p, 2
  {
    var a := ArgsAfter(p.thn, args);
    var e := Image(p.els, a, substs);
    RunsAsText(depth, p.thn, args, substs, w, [ElseLine(p.form)] + e, ev);
    var r := M.Run(depth, p.thn, M.Text(args, substs), w, ev);
    if r.Ok? {
      StatementAsText(depth, Plain("else"), [], r.value, e, ev);
      var r' := M.Statement(depth, Plain("else"), [], r.value, ev);
      if r'.Ok? { BranchAsText(depth, p, p.els, a, substs, r'.value, ev); }
    }
  }

  // ---- the whole script ----

  const NOTHING_RUN := M.World(map[], map[], [])
  const NOTHING_READ := G.State(map[], map[], [])
  const AS_SOURCE := M.Source(map[], map[])
  const AS_TEXT := M.Text([], [])

  /** The assembler ends as a run did: with the same statements, each seeing the same symbol values, and the
      same symbols, or with an error where the run failed. */
  predicate SameEnd(r: G.Result<M.World>, s: G.Result<G.State>) {
    && (r.Failed? <==> s.Failed?)
    && (r.Ok? ==> s.value.events == r.value.events && s.value.symbols == r.value.symbols)
  }

  function Assembled(p: Prog, depth: nat, ev: G.Evaluator): G.Result<G.State> {
    G.Assemble(depth, T.TranslateFrom(T.START, Flatten(p)), NOTHING_READ, ev)
  }

  /** For every program without exception: assembling its conversion is running it on the text. */
  lemma ConvertedMeaning(p: Prog, depth: nat, ev: G.Evaluator)
    ensures SameEnd(M.Run(depth, p, AS_TEXT, NOTHING_RUN, ev), Assembled(p, depth, ev))
  {
    LoopCompiles(p, T.START);
    RunsAsText(depth, p, [], [], NOTHING_RUN, [], ev);
    assert Image(p, [], []) + [] == Compile(p, []);
    assert StateOf(NOTHING_RUN) == NOTHING_READ;
  }
}
