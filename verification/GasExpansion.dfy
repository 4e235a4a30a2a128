/** What the assembler makes of the converter's output: symbol assignment, conditional assembly,
    textual repetition and macro expansion, over flat lines. */
module GasExpansion {
  import opened Sp3Syntax

  type Symbols = map<string, int>
  type Subst = map<string, Tok>

  /** The assembler's expression evaluator; nothing depends on how it evaluates. */
  type Evaluator = (seq<Tok>, Symbols) -> int

  /** A primitive statement that reached the assembler proper, with the symbol values it saw. */
  datatype Event = Event(head: Tok, operands: seq<Tok>, symbols: Symbols)

  datatype Definition = Definition(params: seq<string>, body: seq<Out>)
  datatype State = State(symbols: Symbols, macros: map<string, Definition>, events: seq<Event>)
  datatype Result<+S> = Ok(value: S) | Failed

  /** A word replaced by a value keeps its place in the text. */
  function Put(value: Tok, t: Tok): Tok { value.(glued := t.glued) }

  /** The last backslash in front of a word and the word give way to the value; other backslashes stay. */
  function SubstTok(t: Tok, s: Subst): Tok {
    if t.slashes >= 1 && t.name in s then Put(s[t.name], t).(slashes := t.slashes - 1 + s[t.name].slashes) else t
  }

  function SubstToks(ts: seq<Tok>, s: Subst): seq<Tok> {
    seq(|ts|, i requires 0 <= i < |ts| => SubstTok(ts[i], s))
  }

  function SubstLine(o: Out, s: Subst): Out {
    match o
    case Irp(v, values) => Irp(v, SubstToks(values, s))
    case IfDir(c) => IfDir(SubstToks(c, s))
    case Set(x, val) => Set(SubstTok(x, s), SubstToks(val, s))
    case Stmt(h, ops) => Stmt(SubstTok(h, s), SubstToks(ops, s))
    case _ => o
  }

  function SubstLines(ls: seq<Out>, s: Subst): seq<Out> {
    seq(|ls|, i requires 0 <= i < |ls| => SubstLine(ls[i], s))
  }

  /** Positional parameter binding; a missing argument is blank. */
  function Bind(params: seq<string>, args: seq<Tok>): Subst {
    if params == [] then map[]
    else if args == [] then Bind(params[1..], [])[params[0] := Plain("")]
    else Bind(params[1..], args[1..])[params[0] := args[0].(glued := false)]
  }

  predicate Opens(k: Kind, o: Out) {
    match k
    case KFor => o.Irp?
    case KIf => o.IfDir?
    case KFunction => o.Macro?
  }

  predicate Closes(k: Kind, o: Out) {
    match k
    case KFor => o.Endr?
    case KIf => o.Endif?
    case KFunction => o.Endm?
  }

  /** Offset of the line that closes a block of kind k, counting only blocks of that kind; for a
      conditional, a `.else` of the same block also ends the search. |ls| if there is none. */
  function FindClose(k: Kind, ls: seq<Out>, nested: nat): (r: nat)
    ensures r <= |ls|
    decreases |ls|
  {
    if ls == [] then 0
    else if nested == 0 && (Closes(k, ls[0]) || (k == KIf && ls[0].ElseDir?)) then 0
    else if Closes(k, ls[0]) then 1 + FindClose(k, ls[1..], nested - 1)
    else if Opens(k, ls[0]) then 1 + FindClose(k, ls[1..], nested + 1)
    else 1 + FindClose(k, ls[1..], nested)
  }

  datatype Conditional = Conditional(thn: seq<Out>, els: seq<Out>, rest: seq<Out>) | Unclosed

  /** The branches of the conditional that the first line opens, and the lines behind it. */
  function Split(ls: seq<Out>): (r: Conditional)
    requires ls != []
    ensures r.Conditional? ==> |r.thn| < |ls| && |r.els| < |ls| && |r.rest| < |ls|
  {
    var n := FindClose(KIf, ls[1..], 0);
    if n == |ls| - 1 then Unclosed
    else if !ls[n + 1].ElseDir? then Conditional(ls[1..n + 1], [], ls[n + 2..])
    else
      var last := n + 2 + FindClose(KIf, ls[n + 2..], 0);
      if last == |ls| || ls[last].ElseDir? then Unclosed
      else Conditional(ls[1..n + 1], ls[n + 2..last], ls[last + 1..])
  }

  /** Assemble lines from left to right; `depth` bounds the macro nesting, as the assembler does. */
  function Assemble(depth: nat, ls: seq<Out>, st: State, ev: Evaluator): Result<State>
    decreases depth, |ls|, 0
  {
    if ls == [] then Ok(st) else
    match ls[0]
    case Set(x, val) =>
      if x.slashes != 0 then Failed
      else Assemble(depth, ls[1..], st.(symbols := st.symbols[x.name := ev(val, st.symbols)]), ev)
    case Stmt(h, ops) =>
      if h.slashes == 0 && h.name in st.macros then
        var m := st.macros[h.name];
        if depth == 0 || |ops| > |m.params| then Failed
        else
          (match Assemble(depth - 1, SubstLines(m.body, Bind(m.params, ops)), st, ev)
           case Failed => Failed
           case Ok(st') => Assemble(depth, ls[1..], st', ev))
      else Assemble(depth, ls[1..], st.(events := st.events + [Event(h, ops, st.symbols)]), ev)
    case Irp(v, values) =>
      var n := FindClose(KFor, ls[1..], 0);
      if values == [] || n == |ls| - 1 then Failed
      else
        (match Repeat(depth, v, values, ls[1..1 + n], st, ev)
         case Failed => Failed
         case Ok(st') => Assemble(depth, ls[n + 2..], st', ev))
    case Macro(f, ps) =>
      var n := FindClose(KFunction, ls[1..], 0);
      if n == |ls| - 1 || f in st.macros then Failed
      else Assemble(depth, ls[n + 2..], st.(macros := st.macros[f := Definition(ps, ls[1..1 + n])]), ev)
    case IfDir(c) =>
      var b := Split(ls);
      if b.Unclosed? then Failed
      else
        (match Assemble(depth, if ev(c, st.symbols) != 0 then b.thn else b.els, st, ev)
         case Failed => Failed
         case Ok(st') => Assemble(depth, b.rest, st', ev))
    case _ => Failed
  }

  /** The copies of a repetition body, one per value. */
  function Repeat(depth: nat, v: string, values: seq<Tok>, body: seq<Out>, st: State, ev: Evaluator): Result<State>
    decreases depth, |body|, |values| + 1
  {
    if values == [] then Ok(st)
    else
      match Assemble(depth, SubstLines(body, map[v := values[0]]), st, ev)
      case Failed => Failed
      case Ok(st') => Repeat(depth, v, values[1..], body, st', ev)
  }
}
