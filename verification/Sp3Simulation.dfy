/** The converter preserves meaning: a program whose words find their values in the converted text means
    the same there as in the source. */
module Sp3Simulation {
  import opened Sp3Syntax
  import opened Sp3Text
  import T = Sp3Translator
  import G = GasExpansion
  import M = Sp3Meaning

  // ---- which programs ----

  /** What surrounds a place in a program: the parameters the converter escapes there (`args`), those of all
      functions around it, and the variables of all loops around it. `own` are the escaped parameters, and
      `seen` the loop variables, that no expansion further out substitutes for. */
  datatype Ctx = Ctx(args: seq<string>, own: set<string>, params: set<string>, seen: set<string>, loops: set<string>)

  const TOP := Ctx([], {}, {}, {}, {})

  function Bound(c: Ctx): set<string> { c.params + c.loops }

  function Names(ps: seq<string>): set<string> { set x | x in ps }

  function LoopCtx(c: Ctx, v: string): Ctx {
    c.(loops := c.loops + {v}, seen := if v in Bound(c) then c.seen - {v} else c.seen + {v})
  }

  function FunctionCtx(c: Ctx, ps: seq<string>): Ctx {
    c.(args := ps, own := Names(ps) - Bound(c), params := c.params + Names(ps))
  }

  /** Nothing is escaped any more behind a function. */
  function CtxAfter(p: Prog, c: Ctx): Ctx { if Defines(p) then c.(args := [], own := {}) else c }

  function CtxAfterElse(form: ElseForm, els: Prog, c: Ctx): Ctx { if form.NoElse? then c else CtxAfter(els, c) }

  /** The word finds its value: a bare word is escaped if and only if it is a parameter, a word with a
      backslash is a loop variable and not escaped, and no other expansion takes it first. */
  predicate WordOk(t: Tok, c: Ctx) {
    var escaped := t.name in c.args && !t.glued;
    if t.slashes == 0 then (if escaped then t.name in c.own else t.name !in c.params)
    else t.slashes == 1 && t.name in c.seen && !escaped
  }

  predicate WordsOk(ts: seq<Tok>, c: Ctx) { forall i :: 0 <= i < |ts| ==> WordOk(ts[i], c) }

  predicate Distinct(ps: seq<string>) {
    forall i, j :: 0 <= i < j < |ps| ==> ps[i] != ps[j]
  }

  /** The programs whose meaning the converter keeps. */
  predicate Good(p: Prog, c: Ctx)
    decreases p
  {
    match p
    case Skip => true
    case PInstr(op, ops, next) => WordOk(op, c) && WordsOk(ops, c) && Good(next, c)
    case PCall(f, ops, next) => WordOk(Tok(0, f, true), c) && WordsOk(CallArgs(ops), c) && Good(next, c)
    case PVar(x, val, next) => WordOk(x, c) && WordsOk(val, c) && Good(next, c)
    case PIf(cond, thn, form, els, next) =>
      && WordsOk(cond, c) && !form.BareElse? && Good(thn, c)
      && (form.SpacedElse? ==> Good(els, CtxAfter(thn, c)))
      && Good(next, CtxAfterElse(form, els, CtxAfter(thn, c)))
    case PFor(v, a, _, b, _, _, body, next) =>
      a < b && Good(body, LoopCtx(c, v)) && Good(next, CtxAfter(body, c))
    case PFunction(_, ps, body, next) =>
      Distinct(ps) && Good(body, FunctionCtx(c, ps)) && Good(next, c.(args := [], own := {}))
  }

  // ---- words ----

  /** Both scopes are those of a place with this surrounding, and give its words the same values. */
  ghost predicate Agree(src: M.Scope, txt: M.Scope, c: Ctx) {
    && src.Source? && txt.Text? && txt.args == c.args && Distinct(c.args)
    && src.params.Keys == c.params && src.loops.Keys == c.loops
    && (forall s :: s in txt.substs ==> s.Keys <= Bound(c))
    && (forall x :: x in c.own ==> x in c.params && Gives(txt, x, src.params[x]))
    && (forall x :: x in c.seen ==> x in c.loops && Gives(txt, x, src.loops[x]))
  }

  predicate Gives(txt: M.Scope, x: string, value: Tok)
    requires txt.Text?
  {
    value.slashes == 0 && M.SubstSeq(Tok(1, x, false), txt.substs) == value
  }

  lemma EscapeDistinct(t: Tok, args: seq<string>)
    requires Distinct(args)
    ensures T.EscapeTok(t, args) == if t.name in args && !t.glued then Tok(t.slashes + 1, t.name, false) else t
  {
    if t.name in args {
      var i :| 0 <= i < |args| && args[i] == t.name;
      assert args == args[..i] + [t.name] + args[i + 1..];
      assert t.name !in args[..i] && t.name !in args[i + 1..];
      assert multiset(args) == multiset(args[..i]) + multiset{t.name} + multiset(args[i + 1..]);
    }
  }

  lemma {:induction false} GluedAlike(t: Tok, g: bool, substs: seq<G.Subst>)
    ensures M.SubstSeq(t.(glued := g), substs) == M.SubstSeq(t, substs).(glued := g)
    decreases |substs|
  {
    if substs != [] { GluedAlike(t, g, substs[..|substs| - 1]); }
  }

  lemma {:induction false} Untouched(t: Tok, substs: seq<G.Subst>)
    requires forall s :: s in substs ==> t.name !in s
    ensures M.SubstSeq(t, substs) == t
    decreases |substs|
  {
    if substs != [] { Untouched(t, substs[..|substs| - 1]); }
  }

  lemma WordAgrees(t: Tok, src: M.Scope, txt: M.Scope, c: Ctx)
    requires Agree(src, txt, c) && WordOk(t, c)
    ensures M.Word(t, txt) == M.Word(t, src)
    ensures M.Word(t, src).slashes == 0
  {
    EscapeDistinct(t, c.args);
    if t.slashes == 0 && !(t.name in c.args && !t.glued) {
      BareStays(t, txt.substs);
    } else {
      GluedAlike(Tok(1, t.name, false), t.glued, txt.substs);
    }
  }

  lemma WordsAgree(ts: seq<Tok>, src: M.Scope, txt: M.Scope, c: Ctx)
    requires Agree(src, txt, c) && WordsOk(ts, c)
    ensures M.Words(ts, txt) == M.Words(ts, src)
    ensures forall i :: 0 <= i < |ts| ==> M.Words(ts, src)[i].slashes == 0
  {
    forall i | 0 <= i < |ts|
      ensures M.Word(ts[i], txt) == M.Word(ts[i], src) && M.Word(ts[i], src).slashes == 0
    {
      WordAgrees(ts[i], src, txt, c);
    }
  }

  // ---- going into a loop or a call ----

  lemma GivesInside(txt: M.Scope, x: string, value: Tok, s: G.Subst)
    requires txt.Text? && Gives(txt, x, value)
    ensures Gives(txt.(substs := txt.substs + [s]), x, value)
  {
    assert (txt.substs + [s])[..|txt.substs|] == txt.substs;
  }

  lemma GivesNew(txt: M.Scope, x: string, s: G.Subst)
    requires txt.Text? && x in s && s[x].slashes == 0 && !s[x].glued
    requires forall r :: r in txt.substs ==> x !in r
    ensures Gives(txt.(substs := txt.substs + [s]), x, s[x])
  {
    assert (txt.substs + [s])[..|txt.substs|] == txt.substs;
    Untouched(Tok(1, x, false), txt.substs);
  }

  lemma LoopAgrees(src: M.Scope, txt: M.Scope, c: Ctx, v: string, value: Tok)
    requires Agree(src, txt, c) && value.slashes == 0 && !value.glued
    ensures Agree(M.InLoop(src, v, value), M.InLoop(txt, v, value), LoopCtx(c, v))
  {
    var src', txt', c' := M.InLoop(src, v, value), M.InLoop(txt, v, value), LoopCtx(c, v);
    forall x | x in c'.own
      ensures x in c'.params && Gives(txt', x, src'.params[x])
    {
      GivesInside(txt, x, src.params[x], map[v := value]);
    }
    forall x | x in c'.seen
      ensures x in c'.loops && Gives(txt', x, src'.loops[x])
    {
      if x in c.seen { GivesInside(txt, x, src.loops[x], map[v := value]); } else { GivesNew(txt, x, map[v := value]); }
    }
  }

  lemma {:induction false} BindBinds(params: seq<string>, args: seq<Tok>)
    requires forall i :: 0 <= i < |args| ==> args[i].slashes == 0
    ensures G.Bind(params, args).Keys == Names(params)
    ensures forall x :: x in G.Bind(params, args) ==>
              G.Bind(params, args)[x].slashes == 0 && !G.Bind(params, args)[x].glued
    decreases |params|
  {
    if params != [] {
      BindBinds(params[1..], if args == [] then [] else args[1..]);
      assert params == [params[0]] + params[1..];
    }
  }

  lemma CallAgrees(src: M.Scope, txt: M.Scope, c: Ctx, ps: seq<string>, args: seq<Tok>)
    requires Agree(src, txt, c) && Distinct(ps) && forall i :: 0 <= i < |args| ==> args[i].slashes == 0
    ensures Agree(M.InCall(src, ps, args), M.InCall(txt, ps, args), FunctionCtx(c, ps))
  {
    var s := G.Bind(ps, args);
    var src', txt', c' := M.InCall(src, ps, args), M.InCall(txt, ps, args), FunctionCtx(c, ps);
    BindBinds(ps, args);
    forall x | x in c'.own
      ensures x in c'.params && Gives(txt', x, src'.params[x])
    {
      GivesNew(txt, x, s);
    }
    forall x | x in c'.seen
      ensures x in c'.loops && Gives(txt', x, src'.loops[x])
    {
      GivesInside(txt, x, src.loops[x], s);
    }
  }

  // ---- related worlds ----

  ghost predicate FunsAgree(a: M.Fun, b: M.Fun) {
    && a.params == b.params && a.body == b.body && Distinct(a.params)
    && exists c :: Agree(a.scope, b.scope, c) && Good(a.body, FunctionCtx(c, a.params))
  }

  ghost predicate WorldsAgree(a: M.World, b: M.World) {
    && a.symbols == b.symbols && a.events == b.events && a.funs.Keys == b.funs.Keys
    && forall f :: f in a.funs ==> FunsAgree(a.funs[f], b.funs[f])
  }

  ghost predicate Match(a: G.Result<M.World>, b: G.Result<M.World>) {
    a.Failed? == b.Failed? && (a.Ok? ==> WorldsAgree(a.value, b.value))
  }

  // ---- the simulation ----

  /** In related scopes and worlds, a program runs on the text as it runs in the source. */
  lemma {:induction false} Simulates(depth: nat, p: Prog, src: M.Scope, txt: M.Scope, c: Ctx, w: M.World, w': M.World,
                                     ev: G.Evaluator)
    requires Good(p, c) && Agree(src, txt, c) && WorldsAgree(w, w')
    ensures Match(M.Run(depth, p, src, w, ev), M.Run(depth, p, txt, w', ev))
    decreases depth, 1, p, 2
  {
    match p
    case Skip =>
    case PInstr(op, ops, next) =>
      WordAgrees(op, src, txt, c);
      WordsAgree(ops, src, txt, c);
      SimulatesHead(depth, M.Word(op, src), M.Words(ops, src), p, src, txt, c, w, w', ev);
    case PCall(f, ops, next) =>
      WordAgrees(Tok(0, f, true), src, txt, c);
      WordsAgree(CallArgs(ops), src, txt, c);
      SimulatesHead(depth, M.Word(Tok(0, f, true), src).(glued := false), M.Words(CallArgs(ops), src), p, src, txt, c,
                    w, w', ev);
    case PVar(_, _, _) => SimulatesVar(depth, p, src, txt, c, w, w', ev);
    case PIf(_, _, _, _, _) => SimulatesIf(depth, p, src, txt, c, w, w', ev);
    case PFor(_, _, _, _, _, _, _, _) => SimulatesFor(depth, p, src, txt, c, w, w', ev);
    case PFunction(_, _, _, _) => SimulatesFunction(depth, p, src, txt, c, w, w', ev);
  }

  /** Both sides run the same statement first. */
  lemma {:induction false} SimulatesHead(depth: nat, head: Tok, ops: seq<Tok>, p: Prog, src: M.Scope, txt: M.Scope, c: Ctx,
                                         w: M.World, w': M.World, ev: G.Evaluator)
    requires (p.PInstr? || p.PCall?) && Good(p.next, c) && Agree(src, txt, c) && WorldsAgree(w, w')
    requires forall i :: 0 <= i < |ops| ==> ops[i].slashes == 0
    ensures var r, r' := M.Statement(depth, head, ops, w, ev), M.Statement(depth, head, ops, w', ev);
            && r.Failed? == r'.Failed?
            && (r.Ok? ==> Match(M.Run(depth, p.next, src, r.value, ev), M.Run(depth, p.next, txt, r'.value, ev)))
    decreases depth, 1, p, 1
  {
    SimulatesStatement(depth, head, ops, w, w', ev);
    var r, r' := M.Statement(depth, head, ops, w, ev), M.Statement(depth, head, ops, w', ev);
    if r.Ok? { Simulates(depth, p.next, src, txt, c, r.value, r'.value, ev); }
  }

  lemma {:induction false} SimulatesVar(depth: nat, p: Prog, src: M.Scope, txt: M.Scope, c: Ctx, w: M.World, w': M.World,
                                        ev: G.Evaluator)
    requires p.PVar? && Good(p, c) && Agree(src, txt, c) && WorldsAgree(w, w')
    ensures Match(M.Run(depth, p, src, w, ev), M.Run(depth, p, txt, w', ev))
    decreases depth, 1, p, 1
  {
    WordAgrees(p.target, src, txt, c);
    WordsAgree(p.value, src, txt, c);
    var x, value := M.Word(p.target, src).name, ev(M.Words(p.value, src), w.symbols);
    Simulates(depth, p.next, src, txt, c, w.(symbols := w.symbols[x := value]), w'.(symbols := w'.symbols[x := value]), ev);
  }

  lemma {:induction false} SimulatesFunction(depth: nat, p: Prog, src: M.Scope, txt: M.Scope, c: Ctx,
                                             w: M.World, w': M.World, ev: G.Evaluator)
    requires p.PFunction? && Good(p, c) && Agree(src, txt, c) && WorldsAgree(w, w')
    ensures Match(M.Run(depth, p, src, w, ev), M.Run(depth, p, txt, w', ev))
    decreases depth, 1, p, 1
  {
    if p.name !in w.funs {
      var a, b := M.Fun(p.params, p.body, src), M.Fun(p.params, p.body, txt);
      FunctionAgrees(p, src, txt, c);
      DefinitionsAgree(w, w', p.name, a, b);
      Simulates(depth, p.next, src, txt.(args := []), c.(args := [], own := {}),
                w.(funs := w.funs[p.name := a]), w'.(funs := w'.funs[p.name := b]), ev);
    }
  }

  /** What is defined in scopes that agree, and the scopes behind it. */
  lemma FunctionAgrees(p: Prog, src: M.Scope, txt: M.Scope, c: Ctx)
    requires p.PFunction? && Good(p, c) && Agree(src, txt, c)
    ensures FunsAgree(M.Fun(p.params, p.body, src), M.Fun(p.params, p.body, txt))
    ensures Agree(src, txt.(args := []), c.(args := [], own := {})) && Good(p.next, c.(args := [], own := {}))
  {}

  lemma DefinitionsAgree(w: M.World, w': M.World, f: string, a: M.Fun, b: M.Fun)
    requires WorldsAgree(w, w') && FunsAgree(a, b)
    ensures WorldsAgree(w.(funs := w.funs[f := a]), w'.(funs := w'.funs[f := b]))
  {
    var funs, funs' := w.funs[f := a], w'.funs[f := b];
    forall x | x in funs
      ensures FunsAgree(funs[x], funs'[x])
    {
      assert x != f ==> FunsAgree(w.funs[x], w'.funs[x]);
    }
  }

  lemma {:induction false} SimulatesStatement(depth: nat, head: Tok, ops: seq<Tok>, w: M.World, w': M.World, ev: G.Evaluator)
    requires WorldsAgree(w, w') && forall i :: 0 <= i < |ops| ==> ops[i].slashes == 0
    ensures Match(M.Statement(depth, head, ops, w, ev), M.Statement(depth, head, ops, w', ev))
    decreases depth, 0, 1
  {
    if head.slashes == 0 && head.name in w.funs {
      assert FunsAgree(w.funs[head.name], w'.funs[head.name]);
      if depth > 0 && |ops| <= |w.funs[head.name].params| {
        SimulatesBody(depth, w.funs[head.name], w'.funs[head.name], ops, w, w', ev);
      }
    }
  }

  lemma {:induction false} SimulatesBody(depth: nat, a: M.Fun, b: M.Fun, ops: seq<Tok>, w: M.World, w': M.World,
                                         ev: G.Evaluator)
    requires depth > 0 && FunsAgree(a, b) && WorldsAgree(w, w') && forall i :: 0 <= i < |ops| ==> ops[i].slashes == 0
    ensures Match(M.Run(depth - 1, a.body, M.InCall(a.scope, a.params, ops), w, ev),
                  M.Run(depth - 1, b.body, M.InCall(b.scope, b.params, ops), w', ev))
    decreases depth, 0, 0
  {
    var c: Ctx :| Agree(a.scope, b.scope, c) && Good(a.body, FunctionCtx(c, a.params));
    CallAgrees(a.scope, b.scope, c, a.params, ops);
    Simulates(depth - 1, a.body, M.InCall(a.scope, a.params, ops), M.InCall(b.scope, a.params, ops),
              FunctionCtx(c, a.params), w, w', ev);
  }

  lemma AfterAgrees(p: Prog, src: M.Scope, txt: M.Scope, c: Ctx)
    requires Agree(src, txt, c)
    ensures Agree(M.After(p, src), M.After(p, txt), CtxAfter(p, c))
  {}

  lemma {:induction false} SimulatesIf(depth: nat, p: Prog, src: M.Scope, txt: M.Scope, c: Ctx, w: M.World, w': M.World,
                                       ev: G.Evaluator)
    requires p.PIf? && Good(p, c) && Agree(src, txt, c) && WorldsAgree(w, w')
    ensures Match(M.Run(depth, p, src, w, ev), M.Run(depth, p, txt, w', ev))
    decreases depth, 1, p, 1
  {
    WordsAgree(p.cond, src, txt, c);
    AfterAgrees(p.thn, src, txt, c);
    if ev(M.Words(p.cond, src), w.symbols) != 0 {
      Simulates(depth, p.thn, src, txt, c, w, w', ev);
    } else if p.form.SpacedElse? {
      Simulates(depth, p.els, M.After(p.thn, src), M.After(p.thn, txt), CtxAfter(p.thn, c), w, w', ev);
    }
    var r, r' := M.RunIf(depth, p, src, w, ev), M.RunIf(depth, p, txt, w', ev);
    if r.Ok? {
      AfterAgrees(p.els, M.After(p.thn, src), M.After(p.thn, txt), CtxAfter(p.thn, c));
      Simulates(depth, p.next, M.AfterElse(p.form, p.els, M.After(p.thn, src)), M.AfterElse(p.form, p.els, M.After(p.thn, txt)),
                CtxAfterElse(p.form, p.els, CtxAfter(p.thn, c)), r.value, r'.value, ev);
    }
  }

  lemma {:induction false} SimulatesFor(depth: nat, p: Prog, src: M.Scope, txt: M.Scope, c: Ctx, w: M.World, w': M.World,
                                        ev: G.Evaluator)
    requires p.PFor? && Good(p, c) && Agree(src, txt, c) && WorldsAgree(w, w')
    ensures Match(M.Run(depth, p, src, w, ev), M.Run(depth, p, txt, w', ev))
    decreases depth, 1, p, 1
  {
    SimulatesLoop(depth, p.v, p.start, p.bound, p.step, p.body, src, txt, c, w, w', ev);
    AfterAgrees(p.body, src, txt, c);
    var r := M.RunLoop(depth, p.v, p.start, p.bound, p.step, p.body, src, w, ev);
    var r' := M.RunLoop(depth, p.v, p.start, p.bound, p.step, p.body, txt, w', ev);
    if r.Ok? {
      Simulates(depth, p.next, M.After(p.body, src), M.After(p.body, txt), CtxAfter(p.body, c), r.value, r'.value, ev);
    }
  }

  lemma {:induction false} SimulatesLoop(depth: nat, v: string, n: nat, bound: nat, step: Pos, body: Prog, src: M.Scope,
      txt: M.Scope, c: Ctx, w: M.World, w': M.World, ev: G.Evaluator)
    requires Good(body, LoopCtx(c, v)) && Agree(src, txt, c) && WorldsAgree(w, w')
    ensures Match(M.RunLoop(depth, v, n, bound, step, body, src, w, ev),
                  M.RunLoop(depth, v, n, bound, step, body, txt, w', ev))
    decreases depth, 1, body, 3 + if n < bound then bound - n else 0
  {
    if n < bound {
      var value := Plain(Dec(n));
      LoopAgrees(src, txt, c, v, value);
      Simulates(depth, body, M.InLoop(src, v, value), M.InLoop(txt, v, value), LoopCtx(c, v), w, w', ev);
      var r := M.Run(depth, body, M.InLoop(src, v, value), w, ev);
      var r' := M.Run(depth, body, M.InLoop(txt, v, value), w', ev);
      if r.Ok? { SimulatesLoop(depth, v, n + step, bound, step, body, src, txt, c, r.value, r'.value, ev); }
    }
  }

  // ---- the whole script ----

  predicate Convertible(p: Prog) { Good(p, TOP) }

  /** Assembling the converted script ends as running the source program does. */
  predicate Kept(p: Prog, depth: nat, ev: G.Evaluator) {
    SameEnd(M.Run(depth, p, AS_SOURCE, NOTHING_RUN, ev), Assembled(p, depth, ev))
  }

  /** Assembling the converted script fails exactly when running the sp3 program fails, and otherwise
      ends with the same statements, each seeing the same symbol values, and the same symbols. */
  lemma MeaningPreserved(p: Prog, depth: nat, ev: G.Evaluator)
    requires Convertible(p)
    ensures Kept(p, depth, ev)
  {
    ConvertedMeaning(p, depth, ev);
    Simulates(depth, p, AS_SOURCE, AS_TEXT, TOP, NOTHING_RUN, NOTHING_RUN, ev);
  }

  // ---- the condition on words is exact ----

  /** Surroundings that can occur. */
  predicate CtxOk(c: Ctx) {
    Distinct(c.args) && c.own <= Names(c.args) <= c.params && c.seen <= c.loops && c.own !! c.seen
  }

  lemma CtxsOk(c: Ctx, v: string, ps: seq<string>, p: Prog)
    requires CtxOk(c)
    ensures CtxOk(TOP) && CtxOk(LoopCtx(c, v)) && CtxOk(CtxAfter(p, c))
    ensures Distinct(ps) ==> CtxOk(FunctionCtx(c, ps))
  {}

  /** The scopes in which every name has a value of its own in each role. */
  function FreshSource(c: Ctx): M.Scope {
    M.Source(map x | x in c.params :: Plain(x + "'"), map x | x in c.loops :: Plain(x + "+"))
  }

  function FreshText(c: Ctx): M.Scope {
    M.Text(c.args,
           [map x | x in Bound(c) :: Plain(if x in c.own then x + "'" else if x in c.seen then x + "+" else x + "*")])
  }

  lemma FreshAgree(c: Ctx)
    requires CtxOk(c)
    ensures Agree(FreshSource(c), FreshText(c), c)
  {
    var txt := FreshText(c);
    forall x | x in c.own || x in c.seen
      ensures M.SubstSeq(Tok(1, x, false), txt.substs) == txt.substs[0][x]
    {
      assert txt.substs[..0] == [];
    }
  }

  /** A bare word or a variable of a loop around it means the same in the text, whatever the values are, if
      and only if the condition holds. */
  lemma WordExact(t: Tok, c: Ctx)
    requires CtxOk(c) && (t.slashes == 0 || (t.slashes == 1 && t.name in c.loops))
    ensures (forall src, txt :: Agree(src, txt, c) ==> M.Word(t, txt) == M.Word(t, src)) <==> WordOk(t, c)
  {
    if WordOk(t, c) {
      forall src, txt | Agree(src, txt, c)
        ensures M.Word(t, txt) == M.Word(t, src)
      {
        WordAgrees(t, src, txt, c);
      }
    } else {
      FreshAgree(c);
      FreshDiffers(t, c);
    }
  }

  lemma FreshDiffers(t: Tok, c: Ctx)
    requires CtxOk(c) && (t.slashes == 0 || (t.slashes == 1 && t.name in c.loops)) && !WordOk(t, c)
    ensures M.Word(t, FreshText(c)) != M.Word(t, FreshSource(c))
  {
    var txt, x := FreshText(c), t.name;
    var e := T.EscapeTok(t, c.args);
    EscapeDistinct(t, c.args);
    assert M.SubstSeq(e, txt.substs) == G.SubstTok(e, txt.substs[0]) by { assert txt.substs[..0] == []; }
    assert (x + "'")[|x|] != (x + "+")[|x|] && (x + "'")[|x|] != (x + "*")[|x|] && (x + "+")[|x|] != (x + "*")[|x|];
    assert |x + "'"| != |x|;
  }
}
