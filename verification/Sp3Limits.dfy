/** Where the converter does not keep the meaning: for each cause a family of programs, and exactly which of
    them keep it. */
module Sp3Limits {
  import opened Sp3Syntax
  import opened Sp3Blocks
  import opened Sp3Text
  import opened Sp3Simulation
  import T = Sp3Translator
  import G = GasExpansion
  import M = Sp3Meaning

  predicate SameRun(a: G.Result<M.World>, b: G.Result<M.World>) {
    && (a.Failed? <==> b.Failed?)
    && (a.Ok? ==> a.value.events == b.value.events && a.value.symbols == b.value.symbols)
  }

  /** Keeping the meaning is a matter of the two meanings of the program alone. */
  lemma KeptIsSameRun(p: Prog, depth: nat, ev: G.Evaluator)
    ensures Kept(p, depth, ev)
            <==> SameRun(M.Run(depth, p, AS_SOURCE, NOTHING_RUN, ev), M.Run(depth, p, AS_TEXT, NOTHING_RUN, ev))
  {
    ConvertedMeaning(p, depth, ev);
  }

  predicate Whole(sc: M.Scope) { sc == AS_SOURCE || sc == AS_TEXT }

  lemma WholeWords(ts: seq<Tok>)
    ensures M.Words(ts, AS_SOURCE) == ts && M.Words(ts, AS_TEXT) == ts
  {}

  /** A statement that calls no function. */
  lemma OneEvent(depth: nat, p: Prog, head: Tok, ops: seq<Tok>, sc: M.Scope, w: M.World, ev: G.Evaluator)
    requires p.PInstr? || p.PCall?
    requires p.PInstr? ==> head == M.Word(p.op, sc) && ops == M.Words(p.operands, sc)
    requires p.PCall? ==> head == M.Word(Tok(0, p.callee, true), sc).(glued := false) && ops == M.Words(CallArgs(p.args), sc)
    requires p.next == Skip && head.name !in w.funs
    ensures M.Run(depth, p, sc, w, ev) == G.Ok(w.(events := w.events + [G.Event(head, ops, w.symbols)]))
  {
    assert M.Statement(depth, head, ops, w, ev) == G.Ok(w.(events := w.events + [G.Event(head, ops, w.symbols)]));
  }

  // ---- words that are not escaped ----

  /** A function with one parameter, and one call of it. */
  function CalledOnce(f: string, a: string, body: Prog, x: string): Prog {
    PFunction(f, [a], body, PCall(f, [Plain(x)], Skip))
  }

  lemma BindOne(a: string, t: Tok)
    ensures G.Bind([a], [t]) == map[a := t.(glued := false)]
  {
    assert [a][1..] == [] && [t][1..] == [];
    assert G.Bind([], []) == map[];
  }

  function InBody(sc: M.Scope, a: string, x: string): (r: M.Scope)
    ensures r.Text? == sc.Text?
  {
    if sc.Source? then M.Source(map[a := Plain(x)], map[]) else M.Text([a], [map[a := Plain(x)]])
  }

  function Defined(f: string, a: string, body: Prog, sc: M.Scope): M.World {
    M.World(map[], map[f := M.Fun([a], body, sc)], [])
  }

  /** What runs is the body, once. */
  lemma CalledOnceRuns(depth: nat, f: string, a: string, body: Prog, x: string, sc: M.Scope, ev: G.Evaluator)
    requires depth > 0 && Whole(sc)
    ensures M.Run(depth, CalledOnce(f, a, body, x), sc, NOTHING_RUN, ev)
         == M.Run(depth - 1, body, InBody(sc, a, x), Defined(f, a, body, sc), ev)
  {
    var w, arg := Defined(f, a, body, sc), Tok(0, x, true);
    WholeWords([arg]);
    CallRuns(depth, f, x, sc, w, ev);
    BindOne(a, arg);
    assert M.InCall(sc, [a], [arg]) == InBody(sc, a, x);
    assert NOTHING_RUN.(funs := NOTHING_RUN.funs[f := M.Fun([a], body, sc)]) == w;
    assert M.Run(depth, CalledOnce(f, a, body, x), sc, NOTHING_RUN, ev)
        == M.Run(depth, PCall(f, [Plain(x)], Skip), sc, w, ev);
  }

  /** A call of a function with one parameter is its body. */
  lemma CallRuns(depth: nat, f: string, x: string, sc: M.Scope, w: M.World, ev: G.Evaluator)
    requires depth > 0 && f in w.funs && |w.funs[f].params| == 1
    requires M.Word(Tok(0, f, true), sc) == Tok(0, f, true) && M.Word(Tok(0, x, true), sc) == Tok(0, x, true)
    ensures M.Run(depth, PCall(f, [Plain(x)], Skip), sc, w, ev)
         == M.Run(depth - 1, w.funs[f].body, M.InCall(w.funs[f].scope, w.funs[f].params, [Tok(0, x, true)]), w, ev)
  {
    var arg := Tok(0, x, true);
    assert CallArgs([Plain(x)]) == [arg] && M.Words([arg], sc) == [arg];
    var r := M.Statement(depth, Plain(f), [arg], w, ev);
    if r.Ok? { assert M.Run(depth, Skip, sc, r.value, ev) == r; }
  }

  /** The three places where the converter does not escape a word: before a parenthesis in a statement, last
      in a call, and as the name called. */
  datatype Place = Operand(op: string, glued: bool) | LastArgument(g: string) | Callee

  function Use(k: Place, u: string): Prog {
    match k
    case Operand(op, glued) => PInstr(Plain(op), [Tok(0, u, glued)], Skip)
    case LastArgument(g) => PCall(g, [Plain(u)], Skip)
    case Callee => PCall(u, [], Skip)
  }

  /** The statement that a use makes. */
  function UseEvent(k: Place, u: string, sc: M.Scope): G.Event {
    match k
    case Operand(op, glued) => G.Event(Plain(op), [M.Word(Tok(0, u, glued), sc)], map[])
    case LastArgument(g) => G.Event(Plain(g), [M.Word(Tok(0, u, true), sc)], map[])
    case Callee => G.Event(M.Word(Tok(0, u, true), sc).(glued := false), [], map[])
  }

  predicate Primitive(k: Place, f: string, a: string, u: string, x: string) {
    match k
    case Operand(op, _) => op != a && op != f
    case LastArgument(g) => g != a && g != f
    case Callee => u != f && x != f
  }

  lemma InBodyWord(t: Tok, a: string, x: string, sc: M.Scope)
    requires Whole(sc) && t.slashes == 0
    ensures M.Word(t, InBody(sc, a, x))
            == if t.name == a && (sc.Source? || !t.glued) then Tok(0, x, t.glued) else t
  {
    EscapeDistinct(t, [a]);
    if sc.Text? {
      var s := [map[a := Plain(x)]];
      assert s[..0] == [];
      assert M.SubstSeq(T.EscapeTok(t, [a]), s) == G.SubstTok(T.EscapeTok(t, [a]), s[0]);
    }
  }

  lemma UseRuns(depth: nat, f: string, a: string, k: Place, u: string, x: string, sc: M.Scope, ev: G.Evaluator)
    requires Whole(sc) && Primitive(k, f, a, u, x)
    ensures var w := Defined(f, a, Use(k, u), sc);
            M.Run(depth, Use(k, u), InBody(sc, a, x), w, ev) == G.Ok(w.(events := [UseEvent(k, u, InBody(sc, a, x))]))
  {
    var w, in' := Defined(f, a, Use(k, u), sc), InBody(sc, a, x);
    var e := UseEvent(k, u, in');
    match k {
      case Operand(op, glued) =>
        InBodyWord(Plain(op), a, x, sc);
        assert M.Words([Tok(0, u, glued)], in') == [M.Word(Tok(0, u, glued), in')];
      case LastArgument(g) =>
        InBodyWord(Tok(0, g, true), a, x, sc);
        assert CallArgs([Plain(u)]) == [Tok(0, u, true)];
        assert M.Words([Tok(0, u, true)], in') == [M.Word(Tok(0, u, true), in')];
      case Callee =>
        InBodyWord(Tok(0, u, true), a, x, sc);
        assert M.Words(CallArgs([]), in') == [];
    }
    OneEvent(depth, Use(k, u), e.head, e.operands, in', w, ev);
    assert [] + [e] == [e];
  }

  /** A function that hands its parameter on in one of these places hands on the name instead of the value:
      the meaning is kept if and only if another word stands there, or the two coincide, or the operand is not
      in parentheses. */
  lemma EscapeNeeded(depth: nat, f: string, a: string, k: Place, u: string, x: string, ev: G.Evaluator)
    requires depth > 0 && Primitive(k, f, a, u, x)
    ensures Kept(CalledOnce(f, a, Use(k, u), x), depth, ev)
            <==> u != a || x == a || (k.Operand? && !k.glued)
  {
    var p := CalledOnce(f, a, Use(k, u), x);
    KeptIsSameRun(p, depth, ev);
    CalledOnceRuns(depth, f, a, Use(k, u), x, AS_SOURCE, ev);
    CalledOnceRuns(depth, f, a, Use(k, u), x, AS_TEXT, ev);
    UseRuns(depth - 1, f, a, k, u, x, AS_SOURCE, ev);
    UseRuns(depth - 1, f, a, k, u, x, AS_TEXT, ev);
    var t := if k.Operand? then Tok(0, u, k.glued) else Tok(0, u, true);
    InBodyWord(t, a, x, AS_SOURCE);
    InBodyWord(t, a, x, AS_TEXT);
    var e, e' := UseEvent(k, u, InBody(AS_SOURCE, a, x)), UseEvent(k, u, InBody(AS_TEXT, a, x));
    assert [e] == [e'] <==> e == e' by { assert [e][0] == e && [e'][0] == e'; }
    if !k.Callee? {
      assert e.operands[0] == M.Word(t, InBody(AS_SOURCE, a, x));
      assert e'.operands[0] == M.Word(t, InBody(AS_TEXT, a, x));
    }
  }

  // ---- nested functions ----

  /** The end of an inner function clears the parameter list: the line loop comes back to the state it
      entered a function definition in exactly when no parameters were current. */
  lemma NestedFunctionForgets(f: string, ps: seq<string>, body: Prog, st: T.State)
    ensures T.StateAfter(st, Flatten(PFunction(f, ps, body, Skip))) == st <==> st.args == []
  {
    LoopCompiles(PFunction(f, ps, body, Skip), st);
  }

  /** So a parameter used behind an inner function keeps its name: the meaning is kept if and only if the word
      is no parameter of the outer function, or name and value coincide. */
  lemma NestedFunctionKept(depth: nat, f: string, a: string, g: string, ps: seq<string>, inner: Prog, op: string, u: string,
                           x: string, ev: G.Evaluator)
    requires depth > 0 && f != g && op != a && op != f && op != g
    ensures Kept(CalledOnce(f, a, PFunction(g, ps, inner, PInstr(Plain(op), [Plain(u)], Skip)), x), depth, ev)
            <==> u != a || x == a
  {
    var body := PFunction(g, ps, inner, PInstr(Plain(op), [Plain(u)], Skip));
    KeptIsSameRun(CalledOnce(f, a, body, x), depth, ev);
    CalledOnceRuns(depth, f, a, body, x, AS_SOURCE, ev);
    CalledOnceRuns(depth, f, a, body, x, AS_TEXT, ev);
    var src, txt := InBody(AS_SOURCE, a, x), InBody(AS_TEXT, a, x).(args := []);
    InBodyWord(Plain(u), a, x, AS_SOURCE);
    InBodyWord(Plain(op), a, x, AS_SOURCE);
    BareStays(Plain(u), txt.substs);
    BareStays(Plain(op), txt.substs);
    AfterInner(depth - 1, f, a, body, x, AS_SOURCE, src, M.Word(Plain(u), src), ev);
    AfterInner(depth - 1, f, a, body, x, AS_TEXT, txt, Plain(u), ev);
  }

  function NothingEscaped(sc: M.Scope): M.Scope { if sc.Text? then sc.(args := []) else sc }

  lemma AfterInner(depth: nat, f: string, a: string, body: Prog, x: string, sc: M.Scope, after: M.Scope, t: Tok,
                   ev: G.Evaluator)
    requires Whole(sc) && body.PFunction? && body.name != f && body.next.PInstr? && body.next.next.Skip?
    requires after == NothingEscaped(InBody(sc, a, x))
    requires body.next.op.name != f && body.next.op.name != body.name && M.Word(body.next.op, after) == body.next.op
    requires |body.next.operands| == 1 && M.Word(body.next.operands[0], after) == t
    ensures var r := M.Run(depth, body, InBody(sc, a, x), Defined(f, a, body, sc), ev);
            r.Ok? && r.value.events == [G.Event(body.next.op, [t], map[])] && r.value.symbols == map[]
  {
    var w := Defined(f, a, body, sc);
    var w' := w.(funs := w.funs[body.name := M.Fun(body.params, body.body, InBody(sc, a, x))]);
    assert M.Words(body.next.operands, after) == [t];
    OneEvent(depth, body.next, body.next.op, [t], after, w', ev);
    assert M.Run(depth, body, InBody(sc, a, x), w, ev) == M.Run(depth, body.next, after, w', ev);
    assert w'.events + [G.Event(body.next.op, [t], map[])] == [G.Event(body.next.op, [t], map[])];
  }

  // ---- a function inside a function ----

  /** function g(b) / op u / end / g(y) */
  function InnerFunction(g: string, b: string, op: string, u: string, y: string): Prog {
    PFunction(g, [b], PInstr(Plain(op), [Plain(u)], Skip), PCall(g, [Plain(y)], Skip))
  }

  /** The outer expansion substitutes first, so an inner function with a parameter of the same name always gets the
      outer argument. The meaning is kept if and only if it is handed the same argument, or the outer parameter. */
  lemma ShadowedParameter(depth: nat, f: string, a: string, g: string, op: string, x: string, y: string, ev: G.Evaluator)
    requires depth > 1 && f != g && g != a && op != a && op != f && op != g
    ensures Kept(CalledOnce(f, a, InnerFunction(g, a, op, a, y), x), depth, ev) <==> x == y || y == a
  {
    InnerKept(depth, f, a, g, a, op, a, x, y, ev);
  }

  /** With another parameter, the inner function sees the outer one as a plain word, and so does the call behind it:
      the meaning is kept if and only if neither of them matters, or name and value coincide. */
  lemma OuterParameterInside(depth: nat, f: string, a: string, g: string, b: string, op: string, u: string, x: string,
                             y: string, ev: G.Evaluator)
    requires depth > 1 && f != g && g != a && op != a && op != b && op != f && op != g && a != b
    ensures Kept(CalledOnce(f, a, InnerFunction(g, b, op, u, y), x), depth, ev)
            <==> x == a || (u != a && !(u == b && y == a))
  {
    InnerKept(depth, f, a, g, b, op, u, x, y, ev);
  }

  /** The word the inner body comes to. */
  function InnerValue(source: bool, a: string, b: string, u: string, x: string, y: string): string {
    if source then (if u == b then (if y == a then x else y) else if u == a then x else u)
    else (if u != b then u else if a == b then x else y)
  }

  lemma InnerKept(depth: nat, f: string, a: string, g: string, b: string, op: string, u: string, x: string, y: string,
                  ev: G.Evaluator)
    requires depth > 1 && f != g && g != a && op != a && op != b && op != f && op != g
    ensures Kept(CalledOnce(f, a, InnerFunction(g, b, op, u, y), x), depth, ev)
            <==> InnerValue(true, a, b, u, x, y) == InnerValue(false, a, b, u, x, y)
  {
    var body := InnerFunction(g, b, op, u, y);
    KeptIsSameRun(CalledOnce(f, a, body, x), depth, ev);
    CalledOnceRuns(depth, f, a, body, x, AS_SOURCE, ev);
    CalledOnceRuns(depth, f, a, body, x, AS_TEXT, ev);
    InnerCalled(depth - 1, f, a, g, b, op, u, x, y, AS_SOURCE, InnerValue(true, a, b, u, x, y), ev);
    InnerCalled(depth - 1, f, a, g, b, op, u, x, y, AS_TEXT, InnerValue(false, a, b, u, x, y), ev);
  }

  lemma InnerCalled(depth: nat, f: string, a: string, g: string, b: string, op: string, u: string, x: string, y: string,
                    sc: M.Scope, value: string, ev: G.Evaluator)
    requires depth > 0 && Whole(sc) && f != g && g != a && op != a && op != b && op != f && op != g
    requires value == InnerValue(sc.Source?, a, b, u, x, y)
    ensures var r := M.Run(depth, InnerFunction(g, b, op, u, y), InBody(sc, a, x),
                           Defined(f, a, InnerFunction(g, b, op, u, y), sc), ev);
            r.Ok? && r.value.events == [G.Event(Plain(op), [Plain(value)], map[])] && r.value.symbols == map[]
  {
    var p, in' := InnerFunction(g, b, op, u, y), InBody(sc, a, x);
    var w, after := Defined(f, a, p, sc), NothingEscaped(in');
    var w' := w.(funs := w.funs[g := M.Fun([b], p.body, in')]);
    var arg := Tok(0, if sc.Source? && y == a then x else y, true);
    AfterWord(Tok(0, y, true), a, x, sc);
    AfterWord(Tok(0, g, true), a, x, sc);
    var in2 := M.InCall(in', [b], [arg]);
    InnerWordIs(a, b, u, x, arg, in2, sc);
    InnerOp(op, a, b, x, arg, in2, sc);
    OneEvent(depth - 1, p.body, Plain(op), [Plain(value)], in2, w', ev);
    assert M.Words(CallArgs([Plain(y)]), after) == [arg];
    var r := M.Statement(depth, Plain(g), [arg], w', ev);
    assert r == M.Run(depth - 1, p.body, in2, w', ev);
    assert M.Run(depth, p, in', w, ev) == M.Run(depth, p.next, after, w', ev) == r;
    assert w'.events + [G.Event(Plain(op), [Plain(value)], map[])] == [G.Event(Plain(op), [Plain(value)], map[])];
  }

  /** Words behind the inner function, where nothing is escaped. */
  lemma AfterWord(t: Tok, a: string, x: string, sc: M.Scope)
    requires Whole(sc) && t.slashes == 0
    ensures M.Word(t, NothingEscaped(InBody(sc, a, x))) == if sc.Source? && t.name == a then Tok(0, x, t.glued) else t
  {
    if sc.Text? { BareStays(t, InBody(sc, a, x).substs); }
  }

  lemma InnerWordIs(a: string, b: string, u: string, x: string, arg: Tok, in2: M.Scope, sc: M.Scope)
    requires Whole(sc) && arg.slashes == 0 && in2 == M.InCall(InBody(sc, a, x), [b], [arg])
    ensures M.Words([Plain(u)], in2)
         == [Plain(if sc.Source? then (if u == b then arg.name else if u == a then x else u)
                   else if u != b then u else if a == b then x else arg.name)]
  {
    BindOne(b, arg);
    if sc.Text? {
      EscapeDistinct(Plain(u), [b]);
      TwoSubsts(u, map[a := Plain(x)], map[b := arg.(glued := false)]);
      if u != b { BareStays(Plain(u), in2.substs); }
    }
  }

  lemma InnerOp(op: string, a: string, b: string, x: string, arg: Tok, in2: M.Scope, sc: M.Scope)
    requires Whole(sc) && op != a && op != b && in2 == M.InCall(InBody(sc, a, x), [b], [arg])
    ensures M.Word(Plain(op), in2) == Plain(op)
  {
    BindOne(b, arg);
    PlainOpWord(op, in2);
  }

  // ---- bare else ----

  /** An `else` that no space follows is not converted: one branch becomes none or both. */
  lemma BareElseKept(depth: nat, c: seq<Tok>, op: string, ops: seq<Tok>, form: ElseForm, op': string, ops': seq<Tok>,
                     ev: G.Evaluator)
    ensures Kept(PIf(c, PInstr(Plain(op), ops, Skip), form, PInstr(Plain(op'), ops', Skip), Skip), depth, ev)
            <==> !form.BareElse?
  {
    var p := PIf(c, PInstr(Plain(op), ops, Skip), form, PInstr(Plain(op'), ops', Skip), Skip);
    KeptIsSameRun(p, depth, ev);
    WholeWords(c);
    WholeWords(ops);
    WholeWords(ops');
    var e, e', o := G.Event(Plain(op), ops, map[]), G.Event(Plain(op'), ops', map[]), G.Event(Plain("else"), [], map[]);
    var w1, w2 := Events([e]), Events([e] + [o]);
    forall sc | Whole(sc)
      ensures M.Run(depth, p.thn, sc, NOTHING_RUN, ev) == G.Ok(w1)
      ensures M.Run(depth, p.els, sc, NOTHING_RUN, ev) == G.Ok(Events([e']))
    {
      OneEvent(depth, p.thn, Plain(op), ops, sc, NOTHING_RUN, ev);
      OneEvent(depth, p.els, Plain(op'), ops', sc, NOTHING_RUN, ev);
      assert [] + [e] == [e] && [] + [e'] == [e'];
    }
    OneEvent(depth, p.els, Plain(op'), ops', AS_TEXT, w2, ev);
    assert M.Statement(depth, Plain("else"), [], w1, ev) == G.Ok(w2);
    forall sc | Whole(sc)
      ensures M.Run(depth, p, sc, NOTHING_RUN, ev) == M.RunIf(depth, p, sc, NOTHING_RUN, ev)
    {
      RunIfOnly(depth, p, sc, NOTHING_RUN, ev);
    }
    if form.BareElse? {
      var yes := ev(c, map[]) != 0;
      assert M.RunIf(depth, p, AS_SOURCE, NOTHING_RUN, ev) == G.Ok(Events(if yes then [e] else [e']));
      assert M.RunIf(depth, p, AS_TEXT, NOTHING_RUN, ev) == G.Ok(Events(if yes then [e] + [o] + [e'] else []));
      assert |[e] + [o] + [e']| == 3 && |[e]| == |[e']| == 1;
      assert !Kept(p, depth, ev);
    } else {
      assert M.RunIf(depth, p, AS_SOURCE, NOTHING_RUN, ev) == M.RunIf(depth, p, AS_TEXT, NOTHING_RUN, ev);
    }
  }

  function Events(es: seq<G.Event>): M.World { M.World(map[], map[], es) }

  lemma RunIfOnly(depth: nat, p: Prog, sc: M.Scope, w: M.World, ev: G.Evaluator)
    requires p.PIf? && p.next == Skip
    ensures M.Run(depth, p, sc, w, ev) == M.RunIf(depth, p, sc, w, ev)
  {}

  // ---- loops ----

  /** A loop without iterations means nothing, but its conversion does not assemble. */
  lemma EmptyLoopKept(p: Prog, depth: nat, ev: G.Evaluator)
    requires p.PFor? && p.start >= p.bound
    ensures Assembled(p, depth, ev).Failed?
    ensures Kept(p, depth, ev) <==> M.Run(depth, p.next, AS_SOURCE, NOTHING_RUN, ev).Failed?
  {
    ConvertedMeaning(p, depth, ev);
    KeptIsSameRun(p, depth, ev);
    assert M.Run(depth, p, AS_TEXT, NOTHING_RUN, ev).Failed?;
    assert M.Run(depth, p, AS_SOURCE, NOTHING_RUN, ev) == M.Run(depth, p.next, AS_SOURCE, NOTHING_RUN, ev);
  }

  /** The statements of a loop whose body is one instruction. */
  function LoopEvents(values: seq<nat>, v: string, op: string, t: Tok, sc: M.Scope, symbols: G.Symbols): seq<G.Event> {
    seq(|values|, i requires 0 <= i < |values| =>
      G.Event(Plain(op), [LoopWord(values[i], v, t, sc)], symbols))
  }

  function LoopWord(n: nat, v: string, t: Tok, sc: M.Scope): Tok { M.Word(t, M.InLoop(sc, v, Plain(Dec(n)))) }

  predicate PlainOp(op: string, sc: M.Scope) { if sc.Source? then op !in sc.params else op !in sc.args }

  lemma PlainOpWord(op: string, sc: M.Scope)
    requires PlainOp(op, sc)
    ensures M.Word(Plain(op), sc) == Plain(op)
  {
    if sc.Text? { BareStays(Plain(op), sc.substs); }
  }

  lemma {:induction false} LoopRuns(depth: nat, v: string, n: nat, bound: nat, step: Pos, op: string, t: Tok, sc: M.Scope,
                                    w: M.World, ev: G.Evaluator)
    requires op !in w.funs && PlainOp(op, sc)
    ensures M.RunLoop(depth, v, n, bound, step, PInstr(Plain(op), [t], Skip), sc, w, ev)
         == G.Ok(w.(events := w.events + LoopEvents(T.IrpValues(n, bound, step), v, op, t, sc, w.symbols)))
    decreases if n < bound then bound - n else 0
  {
    var values := T.IrpValues(n, bound, step);
    if n < bound {
      var e := G.Event(Plain(op), [LoopWord(n, v, t, sc)], w.symbols);
      IterationRuns(depth, v, n, op, t, sc, w, ev);
      LoopRuns(depth, v, n + step, bound, step, op, t, sc, w.(events := w.events + [e]), ev);
      var rest := T.IrpValues(n + step, bound, step);
      LoopEventsCons(n, rest, v, op, t, sc, w.symbols);
      Associate(w.events, [e], LoopEvents(rest, v, op, t, sc, w.symbols));
    } else {
      assert w.events + LoopEvents(values, v, op, t, sc, w.symbols) == w.events;
    }
  }

  lemma LoopEventsCons(n: nat, rest: seq<nat>, v: string, op: string, t: Tok, sc: M.Scope, symbols: G.Symbols)
    ensures LoopEvents([n] + rest, v, op, t, sc, symbols)
         == [G.Event(Plain(op), [LoopWord(n, v, t, sc)], symbols)] + LoopEvents(rest, v, op, t, sc, symbols)
  {}

  lemma IterationRuns(depth: nat, v: string, n: nat, op: string, t: Tok, sc: M.Scope, w: M.World, ev: G.Evaluator)
    requires op !in w.funs && PlainOp(op, sc)
    ensures M.Run(depth, PInstr(Plain(op), [t], Skip), M.InLoop(sc, v, Plain(Dec(n))), w, ev)
         == G.Ok(w.(events := w.events + [G.Event(Plain(op), [LoopWord(n, v, t, sc)], w.symbols)]))
  {
    var in' := M.InLoop(sc, v, Plain(Dec(n)));
    PlainOpWord(op, in');
    assert M.Words([t], in') == [M.Word(t, in')];
    OneEvent(depth, PInstr(Plain(op), [t], Skip), Plain(op), [M.Word(t, in')], in', w, ev);
  }

  lemma SubstLast(t: Tok, substs: seq<G.Subst>, s: G.Subst)
    ensures M.SubstSeq(t, substs + [s]) == G.SubstTok(M.SubstSeq(t, substs), s)
  {
    assert (substs + [s])[..|substs|] == substs;
  }

  /** A word with one backslash inside two expansions: the outer one takes it first. */
  lemma TwoSubsts(x: string, s: G.Subst, r: G.Subst)
    requires forall y :: y in s ==> s[y].slashes == 0 && !s[y].glued
    requires forall y :: y in r ==> !r[y].glued
    ensures M.SubstSeq(Tok(1, x, false), [s] + [r])
            == if x in s then s[x] else if x in r then r[x] else Tok(1, x, false)
    ensures x in s ==> M.SubstSeq(Tok(2, x, false), [s] + [r]) == G.SubstTok(Tok(1, s[x].name, false), r)
  {
    assert [] + [s] == [s];
    SubstLast(Tok(1, x, false), [], s);
    SubstLast(Tok(1, x, false), [s], r);
    SubstLast(Tok(2, x, false), [], s);
    SubstLast(Tok(2, x, false), [s], r);
  }

  /** A loop over a variable named like a parameter of the function around it: every use of the variable gets a second
      backslash. The function takes the inner one and leaves the argument with the outer one for the loop. The meaning is
      kept if and only if the names differ, or the argument is the variable's name. */
  lemma LoopNamedLikeParameter(depth: nat, f: string, a: string, v: string, start: nat, cv: string, bound: nat, iv: string,
                               step: Pos, op: string, x: string, ev: G.Evaluator)
    requires depth > 0 && op != a && op != f && start < bound
    ensures Kept(CalledOnce(f, a, OneLoop(v, start, cv, bound, iv, step, op), x), depth, ev) <==> v != a || x == v
  {
    var body := OneLoop(v, start, cv, bound, iv, step, op);
    var values, t := T.IrpValues(start, bound, step), Tok(1, v, false);
    KeptIsSameRun(CalledOnce(f, a, body, x), depth, ev);
    LoopInFunction(depth, f, a, body, op, x, AS_SOURCE, ev);
    LoopInFunction(depth, f, a, body, op, x, AS_TEXT, ev);
    SameWords(values, v, op, t, InBody(AS_SOURCE, a, x), InBody(AS_TEXT, a, x));
    forall i | 0 <= i < |values|
      ensures LoopWord(values[i], v, t, InBody(AS_SOURCE, a, x)) == Plain(Dec(values[i]))
      ensures LoopWord(values[i], v, t, InBody(AS_TEXT, a, x))
           == if v == a && x != v then Tok(1, x, false) else Plain(Dec(values[i]))
    {
      EscapeDistinct(t, [a]);
      TwoSubsts(v, map[a := Plain(x)], map[v := Plain(Dec(values[i]))]);
    }
    assert |values| > 0;
    if v == a && x != v { assert LoopWord(values[0], v, t, InBody(AS_TEXT, a, x)) == Tok(1, x, false); }
  }

  function OneLoop(v: string, start: nat, cv: string, bound: nat, iv: string, step: Pos, op: string): Prog {
    PFor(v, start, cv, bound, iv, step, PInstr(Plain(op), [Tok(1, v, false)], Skip), Skip)
  }

  lemma LoopInFunction(depth: nat, f: string, a: string, body: Prog, op: string, x: string, sc: M.Scope, ev: G.Evaluator)
    requires depth > 0 && op != a && op != f && Whole(sc) && body.PFor? && body.start < body.bound
    requires body == OneLoop(body.v, body.start, body.condVar, body.bound, body.incVar, body.step, op)
    ensures var e := LoopEvents(T.IrpValues(body.start, body.bound, body.step), body.v, op, Tok(1, body.v, false),
                                InBody(sc, a, x), map[]);
            M.Run(depth, CalledOnce(f, a, body, x), sc, NOTHING_RUN, ev) == G.Ok(Defined(f, a, body, sc).(events := e))
  {
    var w, in', t := Defined(f, a, body, sc), InBody(sc, a, x), Tok(1, body.v, false);
    CalledOnceRuns(depth, f, a, body, x, sc, ev);
    LoopRuns(depth - 1, body.v, body.start, body.bound, body.step, op, t, in', w, ev);
    LoopOnly(depth - 1, body, in', w, ev);
    var e := LoopEvents(T.IrpValues(body.start, body.bound, body.step), body.v, op, t, in', map[]);
    assert w.events + e == e;
  }

  lemma LoopOnly(depth: nat, p: Prog, sc: M.Scope, w: M.World, ev: G.Evaluator)
    requires p.PFor? && p.next == Skip && p.start < p.bound
    ensures M.Run(depth, p, sc, w, ev) == M.RunLoop(depth, p.v, p.start, p.bound, p.step, p.body, sc, w, ev)
  {}

  lemma SameWords(values: seq<nat>, v: string, op: string, t: Tok, a: M.Scope, b: M.Scope)
    ensures LoopEvents(values, v, op, t, a, map[]) == LoopEvents(values, v, op, t, b, map[])
            <==> forall i :: 0 <= i < |values| ==> LoopWord(values[i], v, t, a) == LoopWord(values[i], v, t, b)
  {
    var e, e' := LoopEvents(values, v, op, t, a, map[]), LoopEvents(values, v, op, t, b, map[]);
    forall i | 0 <= i < |values|
      ensures e[i] == e'[i] <==> LoopWord(values[i], v, t, a) == LoopWord(values[i], v, t, b)
    {
      assert e[i].operands[0] == LoopWord(values[i], v, t, a) && e'[i].operands[0] == LoopWord(values[i], v, t, b);
    }
  }

  // ---- a loop inside a loop over the same variable ----

  lemma DecInjective(m: nat, n: nat)
    requires Dec(m) == Dec(n)
    ensures m == n
  {
    DecReadsBack(m);
    DecReadsBack(n);
  }

  /** One row: the values of the inner loop, or as often that of the outer one. */
  function Row(outer: nat, inner: seq<nat>, op: string, taken: bool): seq<G.Event> {
    seq(|inner|, i requires 0 <= i < |inner| =>
      G.Event(Plain(op), [Plain(Dec(if taken then outer else inner[i]))], map[]))
  }

  function Rows(outer: seq<nat>, inner: seq<nat>, op: string, taken: bool): seq<G.Event> {
    if outer == [] then [] else Row(outer[0], inner, op, taken) + Rows(outer[1..], inner, op, taken)
  }

  lemma {:induction false} RowsAlike(outer: seq<nat>, inner: seq<nat>, op: string)
    ensures Rows(outer, inner, op, true) == Rows(outer, inner, op, false)
            <==> AllAlike(outer, inner)
    decreases |outer|
  {
    if outer != [] {
      var a, a' := Row(outer[0], inner, op, true), Row(outer[0], inner, op, false);
      var b, b' := Rows(outer[1..], inner, op, true), Rows(outer[1..], inner, op, false);
      RowsAlike(outer[1..], inner, op);
      RowAlike(outer[0], inner, op);
      assert (a + b)[..|a|] == a && (a' + b')[..|a|] == a' && (a + b)[|a|..] == b && (a' + b')[|a|..] == b';
      assert a + b == a' + b' <==> a == a' && b == b';
      AllAlikeStep(outer, inner);
    }
  }

  predicate AllAlike(outer: seq<nat>, inner: seq<nat>) { forall o, i :: o in outer && i in inner ==> o == i }

  lemma AllAlikeStep(outer: seq<nat>, inner: seq<nat>)
    requires outer != []
    ensures AllAlike(outer, inner) <==> (forall i :: i in inner ==> outer[0] == i) && AllAlike(outer[1..], inner)
  {
    assert outer[0] in outer;
    forall o | o in outer
      ensures o == outer[0] || o in outer[1..]
    {
      var k :| 0 <= k < |outer| && outer[k] == o;
      if k > 0 { assert outer[1..][k - 1] == o; }
    }
    forall o | o in outer[1..]
      ensures o in outer
    {}
  }

  lemma RowAlike(o: nat, inner: seq<nat>, op: string)
    ensures Row(o, inner, op, true) == Row(o, inner, op, false) <==> forall i :: i in inner ==> o == i
  {
    var a, b := Row(o, inner, op, true), Row(o, inner, op, false);
    if forall i :: i in inner ==> o == i {
      forall k | 0 <= k < |inner|
        ensures a[k] == b[k]
      {
        assert inner[k] in inner;
      }
    }
    if a == b {
      forall i | i in inner
        ensures o == i
      {
        var k :| 0 <= k < |inner| && inner[k] == i;
        assert a[k].operands[0].name == Dec(o) && b[k].operands[0].name == Dec(i);
        DecInjective(o, i);
      }
    }
  }

  /** The inner loop, run in one iteration of the outer one. */
  lemma InnerRuns(depth: nat, p: Prog, op: string, n: nat, sc: M.Scope, w: M.World, ev: G.Evaluator)
    requires p.PFor? && p == OneLoop(p.v, p.start, p.condVar, p.bound, p.incVar, p.step, op) && p.start < p.bound
    requires Whole(sc) && w.funs == map[] && w.symbols == map[]
    ensures M.Run(depth, p, M.InLoop(sc, p.v, Plain(Dec(n))), w, ev)
         == G.Ok(w.(events := w.events + Row(n, T.IrpValues(p.start, p.bound, p.step), op, sc.Text?)))
  {
    var in', values, t := M.InLoop(sc, p.v, Plain(Dec(n))), T.IrpValues(p.start, p.bound, p.step), Tok(1, p.v, false);
    LoopRuns(depth, p.v, p.start, p.bound, p.step, op, t, in', w, ev);
    LoopOnly(depth, p, in', w, ev);
    InnerRow(p.v, values, op, n, sc);
  }

  lemma InnerRow(v: string, values: seq<nat>, op: string, n: nat, sc: M.Scope)
    requires Whole(sc)
    ensures LoopEvents(values, v, op, Tok(1, v, false), M.InLoop(sc, v, Plain(Dec(n))), map[])
         == Row(n, values, op, sc.Text?)
  {
    forall i | 0 <= i < |values|
      ensures LoopWord(values[i], v, Tok(1, v, false), M.InLoop(sc, v, Plain(Dec(n))))
           == Plain(Dec(if sc.Text? then n else values[i]))
    {
      InnerWord(v, n, values[i], sc);
    }
  }

  lemma InnerWord(v: string, n: nat, value: nat, sc: M.Scope)
    requires Whole(sc)
    ensures LoopWord(value, v, Tok(1, v, false), M.InLoop(sc, v, Plain(Dec(n))))
         == Plain(Dec(if sc.Text? then n else value))
  {
    if sc.Text? { OuterFirst(v, Plain(Dec(n)), Plain(Dec(value))); }
  }

  lemma OuterFirst(v: string, a: Tok, b: Tok)
    requires a.slashes == 0 && !a.glued && !b.glued
    ensures M.Word(Tok(1, v, false), M.InLoop(M.InLoop(AS_TEXT, v, a), v, b)) == a
  {
    var s, r := map[v := a], map[v := b];
    TwoSubsts(v, s, r);
    assert M.InLoop(M.InLoop(AS_TEXT, v, a), v, b) == M.Text([], [s] + [r]) by { assert [] + [s] == [s]; }
  }

  lemma {:induction false} OuterRuns(depth: nat, p: Prog, op: string, n: nat, bound: nat, step: Pos, sc: M.Scope, w: M.World,
                                     ev: G.Evaluator)
    requires p.PFor? && p == OneLoop(p.v, p.start, p.condVar, p.bound, p.incVar, p.step, op) && p.start < p.bound
    requires Whole(sc) && w.funs == map[] && w.symbols == map[]
    ensures M.RunLoop(depth, p.v, n, bound, step, p, sc, w, ev)
         == G.Ok(w.(events := w.events + Rows(T.IrpValues(n, bound, step), T.IrpValues(p.start, p.bound, p.step), op,
                                              sc.Text?)))
    decreases if n < bound then bound - n else 0
  {
    var inner := T.IrpValues(p.start, p.bound, p.step);
    if n < bound {
      InnerRuns(depth, p, op, n, sc, w, ev);
      var row := Row(n, inner, op, sc.Text?);
      OuterRuns(depth, p, op, n + step, bound, step, sc, w.(events := w.events + row), ev);
      Associate(w.events, row, Rows(T.IrpValues(n + step, bound, step), inner, op, sc.Text?));
      assert T.IrpValues(n, bound, step)[1..] == T.IrpValues(n + step, bound, step);
    } else {
      assert w.events + Rows([], inner, op, sc.Text?) == w.events;
    }
  }

  /** The outer repetition substitutes first, so every use of the variable in the inner body gets the outer
      value. The meaning is kept if and only if both loops run once, with the same value. */
  lemma ShadowedLoop(depth: nat, v: string, start: nat, cv: string, bound: nat, iv: string, step: Pos,
                     start': nat, cv': string, bound': nat, iv': string, step': Pos, op: string, ev: G.Evaluator)
    requires start < bound && start' < bound'
    ensures Kept(PFor(v, start, cv, bound, iv, step, OneLoop(v, start', cv', bound', iv', step', op), Skip), depth, ev)
            <==> start == start' && bound <= start + step && bound' <= start' + step'
  {
    var body := OneLoop(v, start', cv', bound', iv', step', op);
    var p := PFor(v, start, cv, bound, iv, step, body, Skip);
    var outer, inner := T.IrpValues(start, bound, step), T.IrpValues(start', bound', step');
    KeptIsSameRun(p, depth, ev);
    forall sc | Whole(sc)
      ensures M.Run(depth, p, sc, NOTHING_RUN, ev) == G.Ok(Events(Rows(outer, inner, op, sc.Text?)))
    {
      OuterRuns(depth, body, op, start, bound, step, sc, NOTHING_RUN, ev);
      LoopOnly(depth, p, sc, NOTHING_RUN, ev);
      assert [] + Rows(outer, inner, op, sc.Text?) == Rows(outer, inner, op, sc.Text?);
    }
    RowsAlike(outer, inner, op);
    ValuesAlike(start, bound, step, start', bound', step');
  }

  lemma ValuesAlike(start: nat, bound: nat, step: Pos, start': nat, bound': nat, step': Pos)
    requires start < bound && start' < bound'
    ensures AllAlike(T.IrpValues(start, bound, step), T.IrpValues(start', bound', step'))
            <==> start == start' && bound <= start + step && bound' <= start' + step'
  {
    var outer, inner := T.IrpValues(start, bound, step), T.IrpValues(start', bound', step');
    FirstValues(start, bound, step);
    FirstValues(start', bound', step');
  }

  lemma FirstValues(start: nat, bound: nat, step: Pos)
    requires start < bound
    ensures var values := T.IrpValues(start, bound, step);
            && start in values
            && (if start + step < bound then start + step in values else values == [start])
  {
    assert T.IrpValues(start, bound, step) == [start] + T.IrpValues(start + step, bound, step);
    if start + step < bound {
      assert T.IrpValues(start + step, bound, step)[0] == start + step;
      assert T.IrpValues(start, bound, step)[1] == start + step;
    } else {
      assert T.IrpValues(start + step, bound, step) == [];
    }
  }

  // ---- a function inside a loop ----

  /** A function defined in a loop, and one call of it. */
  function LoopedFunction(v: string, start: nat, cv: string, bound: nat, iv: string, step: Pos, f: string, a: string,
                          op: string, x: string): Prog
  {
    PFor(v, start, cv, bound, iv, step, CalledOnce(f, a, PInstr(Plain(op), [Plain(a)], Skip), x), Skip)
  }

  function InLoopedBody(sc: M.Scope, v: string, n: nat, a: string, x: string): M.Scope {
    if sc.Source? then M.Source(map[a := Plain(x)], map[v := Plain(Dec(n))])
    else M.Text([a], [map[v := Plain(Dec(n))]] + [map[a := Plain(x)]])
  }

  lemma FirstIteration(depth: nat, v: string, n: nat, f: string, a: string, op: string, x: string, sc: M.Scope,
                       ev: G.Evaluator)
    requires depth > 0 && Whole(sc) && op != a && op != f
    ensures var in', body := M.InLoop(sc, v, Plain(Dec(n))), PInstr(Plain(op), [Plain(a)], Skip);
            M.Run(depth, CalledOnce(f, a, body, x), in', NOTHING_RUN, ev)
            == G.Ok(M.World(map[], map[f := M.Fun([a], body, in')],
                            [G.Event(Plain(op), [M.Word(Plain(a), InLoopedBody(sc, v, n, a, x))], map[])]))
  {
    var in', body := M.InLoop(sc, v, Plain(Dec(n))), PInstr(Plain(op), [Plain(a)], Skip);
    var w := M.World(map[], map[f := M.Fun([a], body, in')], []);
    var arg, in2 := Tok(0, x, true), InLoopedBody(sc, v, n, a, x);
    assert w == NOTHING_RUN.(funs := NOTHING_RUN.funs[f := M.Fun([a], body, in')]);
    assert [] + [map[v := Plain(Dec(n))]] == [map[v := Plain(Dec(n))]];
    BareInLoop(arg, sc, v, n);
    BareInLoop(Tok(0, f, true), sc, v, n);
    BindOne(a, arg);
    CallRuns(depth, f, x, in', w, ev);
    assert M.InCall(in', [a], [arg]) == in2;
    var t := M.Word(Plain(a), in2);
    PlainOpWord(op, in2);
    assert M.Words([Plain(a)], in2) == [t];
    OneEvent(depth - 1, body, Plain(op), [t], in2, w, ev);
    var e := G.Event(Plain(op), [t], map[]);
    var w' := M.World(map[], w.funs, [e]);
    assert [] + [e] == [e];
    assert M.Run(depth, PCall(f, [Plain(x)], Skip), in', w, ev) == G.Ok(w');
  }

  lemma BareInLoop(t: Tok, sc: M.Scope, v: string, n: nat)
    requires Whole(sc) && t.slashes == 0
    ensures M.Word(t, M.InLoop(sc, v, Plain(Dec(n)))) == t
  {
    if sc.Text? { BareStays(t, [map[v := Plain(Dec(n))]]); }
  }

  /** A parameter named like the variable of a loop around the function: the loop substitutes for it first. The
      meaning is kept if and only if the names differ, or both scripts fail in the second iteration, which
      defines the function again, or value and argument coincide. */
  lemma ParameterNamedLikeLoop(depth: nat, v: string, start: nat, cv: string, bound: nat, iv: string, step: Pos, f: string,
                               a: string, op: string, x: string, ev: G.Evaluator)
    requires depth > 0 && start < bound && op != a && op != f
    ensures Kept(LoopedFunction(v, start, cv, bound, iv, step, f, a, op, x), depth, ev)
            <==> v != a || start + step < bound || x == Dec(start)
  {
    var p := LoopedFunction(v, start, cv, bound, iv, step, f, a, op, x);
    KeptIsSameRun(p, depth, ev);
    LoopedFunctionRuns(depth, p, f, a, op, x, AS_SOURCE, ev);
    LoopedFunctionRuns(depth, p, f, a, op, x, AS_TEXT, ev);
    EscapeDistinct(Plain(a), [a]);
    TwoSubsts(a, map[v := Plain(Dec(start))], map[a := Plain(x)]);
    var t := M.Word(Plain(a), InLoopedBody(AS_SOURCE, v, start, a, x));
    var t' := M.Word(Plain(a), InLoopedBody(AS_TEXT, v, start, a, x));
    var e, e' := G.Event(Plain(op), [t], map[]), G.Event(Plain(op), [t'], map[]);
    assert [e] == [e'] <==> t == t' by { assert [e][0].operands[0] == t && [e'][0].operands[0] == t'; }
  }

  lemma LoopedFunctionRuns(depth: nat, p: Prog, f: string, a: string, op: string, x: string, sc: M.Scope, ev: G.Evaluator)
    requires depth > 0 && Whole(sc) && op != a && op != f && p.PFor? && p.start < p.bound
    requires p == LoopedFunction(p.v, p.start, p.condVar, p.bound, p.incVar, p.step, f, a, op, x)
    ensures var r := M.Run(depth, p, sc, NOTHING_RUN, ev);
            if p.start + p.step < p.bound then r.Failed?
            else
              && r.Ok? && r.value.symbols == map[]
              && r.value.events == [G.Event(Plain(op), [M.Word(Plain(a), InLoopedBody(sc, p.v, p.start, a, x))], map[])]
  {
    LoopOnly(depth, p, sc, NOTHING_RUN, ev);
    FirstIteration(depth, p.v, p.start, f, a, op, x, sc, ev);
    var r := M.Run(depth, p.body, M.InLoop(sc, p.v, Plain(Dec(p.start))), NOTHING_RUN, ev);
    var n := p.start + p.step;
    if n < p.bound {
      assert M.Run(depth, p.body, M.InLoop(sc, p.v, Plain(Dec(n))), r.value, ev).Failed?;
    } else {
      assert M.RunLoop(depth, p.v, n, p.bound, p.step, p.body, sc, r.value, ev) == r;
    }
  }

  // ---- harmless differences, and one failing input for each cause ----

  /** The names written in the condition and in the increment of a `for` line make no difference. */
  lemma ConditionNamesIgnored(p: Prog, cv: string, iv: string, st: T.State)
    requires p.PFor?
    ensures T.TranslateFrom(st, Flatten(p.(condVar := cv, incVar := iv))) == T.TranslateFrom(st, Flatten(p))
  {
    LoopCompiles(p, st);
    LoopCompiles(p.(condVar := cv, incVar := iv), st);
  }

  /** function f(a) / op (a) / end / f(x), and the like for the other causes. */
  lemma FailingInputs(ev: G.Evaluator)
    ensures !Kept(CalledOnce("f", "a", Use(Operand("op", true), "a"), "x"), 1, ev)
    ensures !Kept(CalledOnce("f", "a", Use(LastArgument("g"), "a"), "x"), 1, ev)
    ensures !Kept(CalledOnce("f", "a", Use(Callee, "a"), "x"), 1, ev)
    ensures !Kept(CalledOnce("f", "a", PFunction("g", [], Skip, PInstr(Plain("op"), [Plain("a")], Skip)), "x"), 1, ev)
    ensures !Kept(CalledOnce("f", "a", InnerFunction("g", "a", "op", "a", "y"), "x"), 2, ev)
    ensures !Kept(CalledOnce("f", "a", InnerFunction("g", "b", "op", "a", "y"), "x"), 2, ev)
    ensures !Kept(PIf([Plain("1")], PInstr(Plain("p"), [], Skip), BareElse, PInstr(Plain("q"), [], Skip), Skip), 1, ev)
    ensures !Kept(PFor("i", 2, "i", 2, "i", 1, Skip, Skip), 1, ev)
    ensures !Kept(PFor("i", 0, "i", 2, "i", 1, OneLoop("i", 0, "i", 2, "i", 1, "op"), Skip), 1, ev)
    ensures !Kept(CalledOnce("f", "i", OneLoop("i", 0, "i", 2, "i", 1, "op"), "x"), 1, ev)
    ensures !Kept(LoopedFunction("a", 0, "a", 1, "a", 1, "f", "a", "op", "x"), 1, ev)
  {
    EscapeNeeded(1, "f", "a", Operand("op", true), "a", "x", ev);
    EscapeNeeded(1, "f", "a", LastArgument("g"), "a", "x", ev);
    EscapeNeeded(1, "f", "a", Callee, "a", "x", ev);
    NestedFunctionKept(1, "f", "a", "g", [], Skip, "op", "a", "x", ev);
    ShadowedParameter(2, "f", "a", "g", "op", "x", "y", ev);
    OuterParameterInside(2, "f", "a", "g", "b", "op", "a", "x", "y", ev);
    BareElseKept(1, [Plain("1")], "p", [], BareElse, "q", [], ev);
    EmptyLoopKept(PFor("i", 2, "i", 2, "i", 1, Skip, Skip), 1, ev);
    ShadowedLoop(1, "i", 0, "i", 2, "i", 1, 0, "i", 2, "i", 1, "op", ev);
    LoopNamedLikeParameter(1, "f", "i", "i", 0, "i", 2, "i", 1, "op", "x", ev);
    ParameterNamedLikeLoop(1, "a", 0, "a", 1, "a", 1, "f", "a", "op", "x", ev);
    assert Dec(0) == "0";
  }
}
