/** What single constructs come to: calls, loops, conditionals and assignments around plain instructions, from the
    source line by line to the statements that are assembled. */
module Sp3Constructs {
  import opened Sp3Syntax
  import opened Sp3Text
  import opened Sp3Simulation
  import G = GasExpansion
  import M = Sp3Meaning
  import T = Sp3Translator

  /** An instruction whose name is an ordinary word. */
  datatype Plainly = Plainly(op: string, operands: seq<Tok>)

  function Block(body: seq<Plainly>): Prog {
    if body == [] then Skip else PInstr(Plain(body[0].op), body[0].operands, Block(body[1..]))
  }

  function BlockEvents(body: seq<Plainly>, sc: M.Scope, symbols: G.Symbols): (es: seq<G.Event>)
    ensures |es| == |body|
  {
    seq(|body|, i requires 0 <= i < |body| => G.Event(Plain(body[i].op), M.Words(body[i].operands, sc), symbols))
  }

  lemma {:induction false} BlockRuns(depth: nat, body: seq<Plainly>, sc: M.Scope, w: M.World, ev: G.Evaluator)
    requires sc.Source? && forall i :: 0 <= i < |body| ==> body[i].op !in sc.params && body[i].op !in w.funs
    ensures M.Run(depth, Block(body), sc, w, ev) == G.Ok(w.(events := w.events + BlockEvents(body, sc, w.symbols)))
    decreases |body|
  {
    if body == [] {
      assert w.events + BlockEvents(body, sc, w.symbols) == w.events;
    } else {
      var e := G.Event(Plain(body[0].op), M.Words(body[0].operands, sc), w.symbols);
      var w' := w.(events := w.events + [e]);
      BlockRuns(depth, body[1..], sc, w', ev);
      assert w'.events + BlockEvents(body[1..], sc, w.symbols) == w.events + BlockEvents(body, sc, w.symbols);
    }
  }

  lemma {:induction false} BlockGood(body: seq<Plainly>, c: Ctx)
    requires forall i :: 0 <= i < |body| ==> WordOk(Plain(body[i].op), c) && WordsOk(body[i].operands, c)
    ensures Good(Block(body), c) && !Defines(Block(body))
    decreases |body|
  {
    if body != [] { BlockGood(body[1..], c); }
  }

  // ---- calls ----

  /** Parameters are bound in order; those without an argument are blank. */
  lemma {:induction false} BindAt(ps: seq<string>, args: seq<Tok>, k: nat)
    requires Distinct(ps) && k < |ps|
    ensures ps[k] in G.Bind(ps, args)
    ensures G.Bind(ps, args)[ps[k]] == if k < |args| then args[k].(glued := false) else Plain("")
    decreases k
  {
    if k > 0 {
      BindAt(ps[1..], if args == [] then [] else args[1..], k - 1);
      assert ps[0] != ps[1..][k - 1];
    }
  }

  /** A word in the body of a function, and the word it is in a call: the argument at the place where the parameter
      list has the word, or itself. */
  predicate Stands(t: Tok, t': Tok, ps: seq<string>, args: seq<Tok>) {
    && t'.slashes == 0 && t'.glued == t.glued
    && (t.name !in ps ==> t'.name == t.name)
    && forall k :: 0 <= k < |ps| && ps[k] == t.name ==> t'.name == if k < |args| then args[k].name else ""
  }

  predicate Substituted(body: seq<Plainly>, events: seq<G.Event>, ps: seq<string>, args: seq<Tok>) {
    && |events| == |body|
    && forall i :: 0 <= i < |body| ==>
         && events[i].head == Plain(body[i].op) && events[i].symbols == map[]
         && |events[i].operands| == |body[i].operands|
         && forall j :: 0 <= j < |body[i].operands| ==> Stands(body[i].operands[j], events[i].operands[j], ps, args)
  }

  /** Bare words, no parameter in front of a parenthesis or as an operation, and no recursion. */
  predicate PlainBody(body: seq<Plainly>, f: string, ps: seq<string>) {
    forall i :: 0 <= i < |body| ==>
      && body[i].op !in ps && body[i].op != f
      && forall j :: 0 <= j < |body[i].operands| ==>
           body[i].operands[j].slashes == 0 && (body[i].operands[j].glued ==> body[i].operands[j].name !in ps)
  }

  predicate Bare(ts: seq<Tok>) { forall i :: 0 <= i < |ts| ==> ts[i].slashes == 0 }

  /** function f(ps) body end f(args): what is assembled is the body with every parameter replaced by the argument
      in its place; more arguments than parameters are an error. */
  lemma CallSubstitutes(depth: nat, f: string, ps: seq<string>, body: seq<Plainly>, args: seq<Tok>, ev: G.Evaluator)
    requires depth > 0 && Distinct(ps) && Bare(args) && PlainBody(body, f, ps)
    ensures var r := Assembled(PFunction(f, ps, Block(body), PCall(f, args, Skip)), depth, ev);
            if |args| > |ps| then r.Failed? else r.Ok? && Substituted(body, r.value.events, ps, args)
  {
    var p := PFunction(f, ps, Block(body), PCall(f, args, Skip));
    BlockGood(body, FunctionCtx(TOP, ps));
    assert Convertible(p);
    MeaningPreserved(p, depth, ev);
    CallRuns(depth, f, ps, body, args, ev);
  }

  lemma CallRuns(depth: nat, f: string, ps: seq<string>, body: seq<Plainly>, args: seq<Tok>, ev: G.Evaluator)
    requires depth > 0 && Distinct(ps) && Bare(args) && PlainBody(body, f, ps)
    ensures var r := M.Run(depth, PFunction(f, ps, Block(body), PCall(f, args, Skip)), AS_SOURCE, NOTHING_RUN, ev);
            if |args| > |ps| then r.Failed? else r.Ok? && Substituted(body, r.value.events, ps, args)
  {
    var w := M.World(map[], map[f := M.Fun(ps, Block(body), AS_SOURCE)], []);
    var ops := M.Words(CallArgs(args), AS_SOURCE);
    var sc := M.InCall(AS_SOURCE, ps, ops);
    assert NOTHING_RUN.(funs := NOTHING_RUN.funs[f := M.Fun(ps, Block(body), AS_SOURCE)]) == w;
    BindBinds(ps, ops);
    BlockRuns(depth - 1, body, sc, w, ev);
    var r := M.Statement(depth, Plain(f), ops, w, ev);
    assert M.Run(depth, PCall(f, args, Skip), AS_SOURCE, w, ev) == r;
    assert [] + BlockEvents(body, sc, map[]) == BlockEvents(body, sc, map[]);
    BodySubstituted(body, sc, f, ps, args, ops);
  }

  lemma BodySubstituted(body: seq<Plainly>, sc: M.Scope, f: string, ps: seq<string>, args: seq<Tok>, ops: seq<Tok>)
    requires Distinct(ps) && Bare(args) && PlainBody(body, f, ps) && |ops| == |args|
    requires sc == M.InCall(AS_SOURCE, ps, ops) && ops == M.Words(CallArgs(args), AS_SOURCE)
    ensures Substituted(body, BlockEvents(body, sc, map[]), ps, args)
  {
    forall i, j | 0 <= i < |body| && 0 <= j < |body[i].operands|
      ensures Stands(body[i].operands[j], M.Words(body[i].operands, sc)[j], ps, args)
    {
      WordStands(body[i].operands[j], sc, ps, args, ops);
    }
  }

  lemma WordStands(t: Tok, sc: M.Scope, ps: seq<string>, args: seq<Tok>, ops: seq<Tok>)
    requires Distinct(ps) && Bare(args) && |ops| == |args| && t.slashes == 0
    requires sc == M.InCall(AS_SOURCE, ps, ops) && ops == M.Words(CallArgs(args), AS_SOURCE)
    ensures Stands(t, M.Word(t, sc), ps, args)
  {
    ArgumentsKept(args, ops);
    BindBinds(ps, ops);
    forall k | 0 <= k < |ps| && ps[k] == t.name
      ensures M.Word(t, sc).name == (if k < |args| then args[k].name else "") && M.Word(t, sc).slashes == 0
    {
      BindAt(ps, ops, k);
    }
  }

  lemma ArgumentsKept(args: seq<Tok>, ops: seq<Tok>)
    requires Bare(args) && ops == M.Words(CallArgs(args), AS_SOURCE)
    ensures |ops| == |args| && forall k :: 0 <= k < |args| ==> ops[k].name == args[k].name && ops[k].slashes == 0
  {}

  // ---- conditionals ----

  /** Names and places of words kept. */
  predicate SameStatements(body: seq<Plainly>, events: seq<G.Event>, symbols: G.Symbols) {
    && |events| == |body|
    && forall i :: 0 <= i < |body| ==> events[i] == G.Event(Plain(body[i].op), body[i].operands, symbols)
  }

  predicate BareBody(body: seq<Plainly>) { forall i :: 0 <= i < |body| ==> Bare(body[i].operands) }

  lemma BareWords(ts: seq<Tok>)
    ensures M.Words(ts, AS_SOURCE) == ts
    ensures Bare(ts) ==> WordsOk(ts, TOP)
  {}

  lemma TopBlock(depth: nat, body: seq<Plainly>, w: M.World, ev: G.Evaluator)
    requires BareBody(body) && w.funs == map[]
    ensures Good(Block(body), TOP) && !Defines(Block(body))
    ensures var r := M.Run(depth, Block(body), AS_SOURCE, w, ev);
            && r.Ok? && r.value == w.(events := r.value.events) && |w.events| <= |r.value.events|
            && r.value.events[..|w.events|] == w.events
            && SameStatements(body, r.value.events[|w.events|..], w.symbols)
  {
    BlockGood(body, TOP);
    BlockRuns(depth, body, AS_SOURCE, w, ev);
    forall i | 0 <= i < |body|
      ensures M.Words(body[i].operands, AS_SOURCE) == body[i].operands
    {
      BareWords(body[i].operands);
    }
    var es := BlockEvents(body, AS_SOURCE, w.symbols);
    assert (w.events + es)[..|w.events|] == w.events && (w.events + es)[|w.events|..] == es;
  }

  /** if c / thn / else / els / end: the first branch is assembled when the condition is not zero, else the second. */
  lemma BranchTaken(depth: nat, c: seq<Tok>, thn: seq<Plainly>, els: seq<Plainly>, ev: G.Evaluator)
    requires Bare(c) && BareBody(thn) && BareBody(els)
    ensures var r := Assembled(PIf(c, Block(thn), SpacedElse, Block(els), Skip), depth, ev);
            r.Ok? && SameStatements(if ev(c, map[]) == 0 then els else thn, r.value.events, map[])
  {
    var p := PIf(c, Block(thn), SpacedElse, Block(els), Skip);
    BareWords(c);
    TopBlock(depth, thn, NOTHING_RUN, ev);
    TopBlock(depth, els, NOTHING_RUN, ev);
    assert Convertible(p);
    MeaningPreserved(p, depth, ev);
    var r := M.RunIf(depth, p, AS_SOURCE, NOTHING_RUN, ev);
    assert M.Run(depth, p, AS_SOURCE, NOTHING_RUN, ev) == r;
    assert r.value.events[0..] == r.value.events;
  }

  /** var x = value: the statements behind it see the symbol with the value of the expression. */
  lemma AssignedSeen(depth: nat, x: string, value: seq<Tok>, body: seq<Plainly>, ev: G.Evaluator)
    requires Bare(value) && BareBody(body)
    ensures var r := Assembled(PVar(Plain(x), value, Block(body)), depth, ev);
            && r.Ok? && r.value.symbols == map[x := ev(value, map[])]
            && SameStatements(body, r.value.events, map[x := ev(value, map[])])
  {
    var p, w := PVar(Plain(x), value, Block(body)), NOTHING_RUN.(symbols := map[x := ev(value, map[])]);
    BareWords(value);
    TopBlock(depth, body, w, ev);
    assert Convertible(p);
    MeaningPreserved(p, depth, ev);
    assert NOTHING_RUN.symbols[x := ev(value, map[])] == w.symbols;
    assert M.Run(depth, p, AS_SOURCE, NOTHING_RUN, ev) == M.Run(depth, Block(body), AS_SOURCE, w, ev);
    var r := M.Run(depth, Block(body), AS_SOURCE, w, ev);
    assert r.value.events[0..] == r.value.events;
  }

  // ---- loops ----

  /** A word in the body of a loop over v, and the word it is in the iteration with value n. */
  predicate Counts(t: Tok, t': Tok, v: string, n: nat) {
    if t == Tok(1, v, t.glued) then t' == Tok(0, Dec(n), t.glued) else t' == t
  }

  /** Bare words and uses of the loop variable. */
  predicate LoopBody(body: seq<Plainly>, v: string) {
    forall i, j :: 0 <= i < |body| && 0 <= j < |body[i].operands| ==>
      body[i].operands[j].slashes == 0 || body[i].operands[j] == Tok(1, v, body[i].operands[j].glued)
  }

  /** The statements of one iteration. */
  predicate Iteration(body: seq<Plainly>, events: seq<G.Event>, v: string, n: nat) {
    && |events| == |body|
    && forall i :: 0 <= i < |body| ==>
         && events[i].head == Plain(body[i].op) && events[i].symbols == map[]
         && |events[i].operands| == |body[i].operands|
         && forall j :: 0 <= j < |body[i].operands| ==> Counts(body[i].operands[j], events[i].operands[j], v, n)
  }

  /** One iteration after another, from n in steps to below the bound. */
  predicate Iterations(body: seq<Plainly>, events: seq<G.Event>, v: string, n: nat, bound: nat, step: Pos)
    decreases if n < bound then bound - n else 0
  {
    if n >= bound then events == []
    else
      && |body| <= |events| && Iteration(body, events[..|body|], v, n)
      && Iterations(body, events[|body|..], v, n + step, bound, step)
  }

  function IterationEvents(body: seq<Plainly>, v: string, n: nat): seq<G.Event> {
    BlockEvents(body, M.InLoop(AS_SOURCE, v, Plain(Dec(n))), map[])
  }

  function AllEvents(body: seq<Plainly>, v: string, n: nat, bound: nat, step: Pos): seq<G.Event>
    decreases if n < bound then bound - n else 0
  {
    if n >= bound then [] else IterationEvents(body, v, n) + AllEvents(body, v, n + step, bound, step)
  }

  lemma {:induction false} LoopRuns(depth: nat, body: seq<Plainly>, v: string, n: nat, bound: nat, step: Pos, w: M.World,
                                    ev: G.Evaluator)
    requires w.funs == map[] && w.symbols == map[]
    ensures M.RunLoop(depth, v, n, bound, step, Block(body), AS_SOURCE, w, ev)
         == G.Ok(w.(events := w.events + AllEvents(body, v, n, bound, step)))
    decreases if n < bound then bound - n else 0
  {
    if n < bound {
      var first, rest := IterationEvents(body, v, n), AllEvents(body, v, n + step, bound, step);
      BlockRuns(depth, body, M.InLoop(AS_SOURCE, v, Plain(Dec(n))), w, ev);
      LoopRuns(depth, body, v, n + step, bound, step, w.(events := w.events + first), ev);
      assert (w.events + first) + rest == w.events + (first + rest);
    } else {
      assert w.events + [] == w.events;
    }
  }

  lemma {:induction false} AllIterate(body: seq<Plainly>, v: string, n: nat, bound: nat, step: Pos)
    requires LoopBody(body, v)
    ensures Iterations(body, AllEvents(body, v, n, bound, step), v, n, bound, step)
    decreases if n < bound then bound - n else 0
  {
    if n < bound {
      var first, rest := IterationEvents(body, v, n), AllEvents(body, v, n + step, bound, step);
      AllIterate(body, v, n + step, bound, step);
      assert (first + rest)[..|body|] == first && (first + rest)[|body|..] == rest;
    }
  }

  /** for var v = start; .. < bound; .. += step / body / end: the body once for every value, in order, with the value in
      the place of the variable. */
  lemma LoopRepeats(depth: nat, v: string, start: nat, cv: string, bound: nat, iv: string, step: Pos, body: seq<Plainly>,
                    ev: G.Evaluator)
    requires start < bound && LoopBody(body, v)
    ensures var r := Assembled(PFor(v, start, cv, bound, iv, step, Block(body), Skip), depth, ev);
            r.Ok? && Iterations(body, r.value.events, v, start, bound, step)
  {
    var p := PFor(v, start, cv, bound, iv, step, Block(body), Skip);
    BlockGood(body, LoopCtx(TOP, v));
    assert Convertible(p);
    MeaningPreserved(p, depth, ev);
    LoopRuns(depth, body, v, start, bound, step, NOTHING_RUN, ev);
    AllIterate(body, v, start, bound, step);
    var es := AllEvents(body, v, start, bound, step);
    assert M.Run(depth, p, AS_SOURCE, NOTHING_RUN, ev) == G.Ok(NOTHING_RUN.(events := NOTHING_RUN.events + es));
    assert [] + es == es;
  }

  // ---- the function example ----

  /** examples/sp3/function.sp3, word by word: what is assembled. */
  lemma WriteToExample(depth: nat, ev: G.Evaluator)
    requires depth > 0
    ensures var body := [Plainly("v_and_b32", [Plain("Reg"), Plain("Reg"), Plain("0xF;")]),
                         Plainly("v_mov_b32", [Plain("Reg"), Plain("Value")])];
            var r := Assembled(PFunction("WriteTo", ["Reg", "Value"], Block(body),
                                         PCall("WriteTo", [Plain("v1"), Plain("0xFFFF")], Skip)), depth, ev);
            r.Ok? && r.value.events == [G.Event(Plain("v_and_b32"), [Plain("v1"), Plain("v1"), Plain("0xF;")], map[]),
                                        G.Event(Plain("v_mov_b32"), [Plain("v1"), Plain("0xFFFF")], map[])]
  {
    var body := [Plainly("v_and_b32", [Plain("Reg"), Plain("Reg"), Plain("0xF;")]),
                 Plainly("v_mov_b32", [Plain("Reg"), Plain("Value")])];
    var ps, args := ["Reg", "Value"], [Plain("v1"), Plain("0xFFFF")];
    CallSubstitutes(depth, "WriteTo", ps, body, args, ev);
    var r := Assembled(PFunction("WriteTo", ps, Block(body), PCall("WriteTo", args, Skip)), depth, ev);
    assert ps[0] == "Reg" && ps[1] == "Value" && "0xF;" !in ps;
    var es := r.value.events;
    assert Stands(body[0].operands[0], es[0].operands[0], ps, args);
    assert Stands(body[0].operands[1], es[0].operands[1], ps, args);
    assert Stands(body[0].operands[2], es[0].operands[2], ps, args);
    assert Stands(body[1].operands[0], es[1].operands[0], ps, args);
    assert Stands(body[1].operands[1], es[1].operands[1], ps, args);
    assert es[0].operands == [Plain("v1"), Plain("v1"), Plain("0xF;")];
    assert es[1].operands == [Plain("v1"), Plain("0xFFFF")];
  }
}
