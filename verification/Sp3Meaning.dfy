/** Two meanings of a block-structured program, which differ in how a word gets its value only: the meaning
    of the source, and what is left of it once the converter has turned the program into text. */
module Sp3Meaning {
  import opened Sp3Syntax
  import opened GasExpansion
  import T = Sp3Translator

  /** In the source a bare word may be a parameter and a word with a backslash a loop variable, each of the
      innermost function or loop that has it. In the converted text the converter has escaped the words it
      takes for parameters, and the expansions around it have substituted for words with one backslash, the
      outermost first. */
  datatype Scope =
    | Source(params: Subst, loops: Subst)
    | Text(args: seq<string>, substs: seq<Subst>)

  function SubstSeq(t: Tok, substs: seq<Subst>): Tok {
    if substs == [] then t else SubstTok(SubstSeq(t, substs[..|substs| - 1]), substs[|substs| - 1])
  }

  function Word(t: Tok, sc: Scope): Tok {
    match sc
    case Source(params, loops) =>
      if t.slashes == 0 && t.name in params then Put(params[t.name], t)
      else if t.slashes == 1 && t.name in loops then Put(loops[t.name], t)
      else t
    case Text(args, substs) => SubstSeq(T.EscapeTok(t, args), substs)
  }

  function Words(ts: seq<Tok>, sc: Scope): seq<Tok> {
    seq(|ts|, i requires 0 <= i < |ts| => Word(ts[i], sc))
  }

  /** Inside one iteration of a loop. */
  function InLoop(sc: Scope, v: string, value: Tok): Scope {
    match sc
    case Source(params, loops) => Source(params, loops[v := value])
    case Text(args, substs) => Text(args, substs + [map[v := value]])
  }

  /** Inside a call of a function that was defined in the given scope. */
  function InCall(sc: Scope, params: seq<string>, args: seq<Tok>): Scope {
    match sc
    case Source(outer, loops) => Source(outer + Bind(params, args), loops)
    case Text(_, substs) => Text(params, substs + [Bind(params, args)])
  }

  /** Behind a block: the converter has no parameters left once it has seen the end of a function. */
  function After(p: Prog, sc: Scope): Scope {
    if sc.Text? && Defines(p) then sc.(args := []) else sc
  }

  function AfterElse(form: ElseForm, els: Prog, sc: Scope): Scope {
    if form.NoElse? then sc else After(els, sc)
  }

  datatype Fun = Fun(params: seq<string>, body: Prog, scope: Scope)
  datatype World = World(symbols: Symbols, funs: map<string, Fun>, events: seq<Event>)

  /** Loops run value by value, conditionals choose a branch, and a statement runs the function its head
      names, if there is one. In the converted text a loop without values is an error, and a bare `else` is
      a statement of the first branch; without an `else` there is no second branch. */
  function Run(depth: nat, p: Prog, sc: Scope, w: World, ev: Evaluator): Result<World>
    decreases depth, 1, p, 1
  {
    match p
    case Skip => Ok(w)
    case PInstr(op, ops, next) =>
      (match Statement(depth, Word(op, sc), Words(ops, sc), w, ev)
       case Failed => Failed
       case Ok(w') => Run(depth, next, sc, w', ev))
    case PCall(f, ops, next) =>
      (match Statement(depth, Word(Tok(0, f, true), sc).(glued := false), Words(CallArgs(ops), sc), w, ev)
       case Failed => Failed
       case Ok(w') => Run(depth, next, sc, w', ev))
    case PVar(x, val, next) =>
      var x' := Word(x, sc);
      if x'.slashes != 0 then Failed
      else Run(depth, next, sc, w.(symbols := w.symbols[x'.name := ev(Words(val, sc), w.symbols)]), ev)
    case PIf(c, thn, form, els, next) =>
      (match RunIf(depth, p, sc, w, ev)
       case Failed => Failed
       case Ok(w') => Run(depth, next, AfterElse(form, els, After(thn, sc)), w', ev))
    case PFor(v, a, _, b, _, s, body, next) =>
      if sc.Text? && a >= b then Failed
      else
        (match RunLoop(depth, v, a, b, s, body, sc, w, ev)
         case Failed => Failed
         case Ok(w') => Run(depth, next, After(body, sc), w', ev))
    case PFunction(f, ps, body, next) =>
      if f in w.funs then Failed
      else
        Run(depth, next, if sc.Text? then sc.(args := []) else sc,
            w.(funs := w.funs[f := Fun(ps, body, sc)]), ev)
  }

  /** The branches of a conditional. */
  function RunIf(depth: nat, p: Prog, sc: Scope, w: World, ev: Evaluator): Result<World>
    requires p.PIf?
    decreases depth, 1, p, 0
  {
    var yes := ev(Words(p.cond, sc), w.symbols) != 0;
    if sc.Text? && p.form.BareElse? then
      if !yes then Ok(w)
      else
        match Run(depth, p.thn, sc, w, ev)
        case Failed => Failed
        case Ok(w1) =>
          match Statement(depth, Plain("else"), [], w1, ev)
          case Failed => Failed
          case Ok(w2) => Run(depth, p.els, After(p.thn, sc), w2, ev)
    else if yes then Run(depth, p.thn, sc, w, ev)
    else if p.form.NoElse? then Ok(w)
    else Run(depth, p.els, After(p.thn, sc), w, ev)
  }

  /** for (v := n; v < bound; v += step) body */
  function RunLoop(depth: nat, v: string, n: nat, bound: nat, step: Pos, body: Prog,
                   sc: Scope, w: World, ev: Evaluator): Result<World>
    decreases depth, 1, body, 1 + if n < bound then bound - n else 0
  {
    if n >= bound then Ok(w)
    else
      match Run(depth, body, InLoop(sc, v, Plain(Dec(n))), w, ev)
      case Failed => Failed
      case Ok(w') => RunLoop(depth, v, n + step, bound, step, body, sc, w', ev)
  }

  /** A function call, or a primitive statement. */
  function Statement(depth: nat, head: Tok, ops: seq<Tok>, w: World, ev: Evaluator): Result<World>
    decreases depth, 0
  {
    if head.slashes == 0 && head.name in w.funs then
      var fun := w.funs[head.name];
      if depth == 0 || |ops| > |fun.params| then Failed
      else Run(depth - 1, fun.body, InCall(fun.scope, fun.params, ops), w, ev)
    else Ok(w.(events := w.events + [Event(head, ops, w.symbols)]))
  }
}
