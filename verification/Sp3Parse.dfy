/** Lines and trees: a line sequence is well nested exactly when it is the flattening of a tree, and of
    only one. So what is proved about trees is proved about every well-nested script. */
module Sp3Parse {
  import opened Sp3Syntax
  import opened Sp3Text
  import opened Sp3Simulation
  import T = Sp3Translator
  import G = GasExpansion
  import M = Sp3Meaning

  /** An open block, and whether its `else` has been seen. */
  datatype Frame = Frame(kind: Kind, elseSeen: bool)

  predicate ElseAllowed(stack: seq<Frame>) {
    stack != [] && stack[|stack| - 1] == Frame(KIf, false)
  }

  /** Blocks are closed in order, and an `else` stands once in an open `if`. */
  predicate WellNested(stack: seq<Frame>, lines: seq<Line>)
    decreases |lines|
  {
    if lines == [] then stack == []
    else if Opener(lines[0]) then WellNested(stack + [Frame(KindOf(lines[0]), false)], lines[1..])
    else if lines[0].Else? then
      ElseAllowed(stack) && WellNested(stack[..|stack| - 1] + [Frame(KIf, true)], lines[1..])
    else if lines[0].End? then stack != [] && WellNested(stack[..|stack| - 1], lines[1..])
    else WellNested(stack, lines[1..])
  }

  datatype Parsed = Parsed(p: Prog, rest: seq<Line>) | Stuck

  /** What follows the first part of a block: an else branch, if any, and the lines from there. */
  datatype ElsePart = ElsePart(form: ElseForm, els: Prog, rest: seq<Line>) | NoPart

  function PlainLine(line: Line, next: Prog): Prog
    requires line.Instr? || line.Call? || line.Var?
  {
    if line.Instr? then PInstr(line.op, line.operands, next)
    else if line.Call? then PCall(line.callee, line.args, next)
    else PVar(line.target, line.value, next)
  }

  function BlockOf(line: Line, body: Prog, form: ElseForm, els: Prog, next: Prog): Prog
    requires Opener(line)
  {
    if line.For? then PFor(line.v, line.start, line.condVar, line.bound, line.incVar, line.step, body, next)
    else if line.Function? then PFunction(line.name, line.params, body, next)
    else PIf(line.cond, body, form, els, next)
  }

  /** The longest block at the start of some lines, up to an `else`, an `end` or the end of the file. */
  function Parse(lines: seq<Line>): (r: Parsed)
    ensures r.Parsed? ==> |r.rest| <= |lines|
    decreases |lines|, 1
  {
    if AtStop(lines) then Parsed(Skip, lines)
    else
      var body := Parse(lines[1..]);
      if body.Stuck? then Stuck
      else if !Opener(lines[0]) then Parsed(PlainLine(lines[0], body.p), body.rest)
      else
        var e := ParseElse(lines[0], body.rest);
        if e.NoPart? || e.rest == [] || !e.rest[0].End? then Stuck
        else
          var next := Parse(e.rest[1..]);
          if next.Stuck? then Stuck else Parsed(BlockOf(lines[0], body.p, e.form, e.els, next.p), next.rest)
  }

  function ParseElse(line: Line, stop: seq<Line>): (r: ElsePart)
    ensures r.ElsePart? ==> |r.rest| <= |stop|
    decreases |stop|, 0
  {
    if line.If? && stop != [] && stop[0].Else? then
      var els := Parse(stop[1..]);
      if els.Stuck? then NoPart
      else ElsePart(if stop[0].spaced then SpacedElse else BareElse, els.p, els.rest)
    else ElsePart(NoElse, Skip, stop)
  }

  /** An `if` without an `else` has no else branch. */
  predicate Tidy(p: Prog) {
    match p
    case Skip => true
    case PInstr(_, _, next) => Tidy(next)
    case PCall(_, _, next) => Tidy(next)
    case PVar(_, _, next) => Tidy(next)
    case PIf(_, thn, form, els, next) => Tidy(thn) && Tidy(els) && Tidy(next) && (form.NoElse? ==> els == Skip)
    case PFor(_, _, _, _, _, _, body, next) => Tidy(body) && Tidy(next)
    case PFunction(_, _, body, next) => Tidy(body) && Tidy(next)
  }

  predicate AtStop(rest: seq<Line>) { rest == [] || rest[0].End? || rest[0].Else? }

  // ---- every tree is a plain line or a block ----

  function ElseLines(form: ElseForm, els: Prog): seq<Line> {
    if form.NoElse? then [] else [Else(form.SpacedElse?)] + Flatten(els)
  }

  /** The parts a block is made of fit together. */
  predicate PartsOk(line: Line, form: ElseForm, els: Prog) {
    Opener(line) && (line.If? || form.NoElse?) && (form.NoElse? ==> els == Skip)
  }

  lemma BlockLines(line: Line, body: Prog, form: ElseForm, els: Prog, next: Prog, rest: seq<Line>)
    requires PartsOk(line, form, els)
    ensures Flatten(BlockOf(line, body, form, els, next)) + rest
         == [line] + (Flatten(body) + (ElseLines(form, els) + ([End] + (Flatten(next) + rest))))
  {
    var b, e, n := Flatten(body), ElseLines(form, els), Flatten(next);
    if line.If? {
      assert Flatten(BlockOf(line, body, form, els, next)) == [line] + b + e + [End] + n;
    } else {
      assert Flatten(BlockOf(line, body, form, els, next)) == [line] + b + [End] + n;
      assert [line] + b + e == [line] + b;
    }
    Shift(line, b, e, End, n, rest);
  }

  lemma Shift(a: Line, b: seq<Line>, e: seq<Line>, c: Line, d: seq<Line>, rest: seq<Line>)
    ensures ([a] + b + e + [c] + d) + rest == [a] + (b + (e + ([c] + (d + rest))))
  {}

  lemma PlainLines(line: Line, next: Prog, rest: seq<Line>)
    requires line.Instr? || line.Call? || line.Var?
    ensures Flatten(PlainLine(line, next)) + rest == [line] + (Flatten(next) + rest)
  {
    assert ([line] + Flatten(next)) + rest == [line] + (Flatten(next) + rest);
  }

  lemma HeadTail(line: Line, rest: seq<Line>)
    ensures ([line] + rest)[0] == line && ([line] + rest)[1..] == rest
  {}

  // ---- parsing undoes flattening ----

  /** Parsing the lines of a tree gives back the tree. */
  lemma {:induction false} ParseFlatten(p: Prog, rest: seq<Line>)
    requires Tidy(p) && AtStop(rest)
    ensures Parse(Flatten(p) + rest) == Parsed(p, rest)
    decreases p
  {
    match p
    case Skip => assert Flatten(p) + rest == rest;
    case PInstr(op, ops, next) => ParseFlatten(next, rest); ParsePlain(Instr(op, ops), next, rest);
    case PCall(f, ops, next) => ParseFlatten(next, rest); ParsePlain(Call(f, ops), next, rest);
    case PVar(x, val, next) => ParseFlatten(next, rest); ParsePlain(Var(x, val), next, rest);
    case PFor(v, a, cv, b, iv, s, body, next) =>
      var tail := [End] + (Flatten(next) + rest);
      ParseFlatten(next, rest);
      ParseFlatten(body, tail);
      ParseBlock(For(v, a, cv, b, iv, s), body, NoElse, Skip, next, rest, tail, tail);
    case PFunction(f, ps, body, next) =>
      var tail := [End] + (Flatten(next) + rest);
      ParseFlatten(next, rest);
      ParseFlatten(body, tail);
      ParseBlock(Function(f, ps), body, NoElse, Skip, next, rest, tail, tail);
    case PIf(c, thn, form, els, next) =>
      var tail := [End] + (Flatten(next) + rest);
      var stop := if form.NoElse? then tail else [Else(form.SpacedElse?)] + (Flatten(els) + tail);
      ParseFlatten(next, rest);
      ParseFlatten(els, tail);
      ParseFlatten(thn, stop);
      ParseBlock(If(c), thn, form, els, next, rest, tail, stop);
  }

  lemma ParsePlain(line: Line, next: Prog, rest: seq<Line>)
    requires line.Instr? || line.Call? || line.Var?
    requires Parse(Flatten(next) + rest) == Parsed(next, rest)
    ensures Parse(Flatten(PlainLine(line, next)) + rest) == Parsed(PlainLine(line, next), rest)
  {
    PlainLines(line, next, rest);
    HeadTail(line, Flatten(next) + rest);
  }

  lemma ParseBlock(line: Line, body: Prog, form: ElseForm, els: Prog, next: Prog, rest: seq<Line>, tail: seq<Line>,
                   stop: seq<Line>)
    requires PartsOk(line, form, els) && tail == [End] + (Flatten(next) + rest)
    requires stop == if form.NoElse? then tail else [Else(form.SpacedElse?)] + (Flatten(els) + tail)
    requires Parse(Flatten(next) + rest) == Parsed(next, rest)
    requires !form.NoElse? ==> Parse(Flatten(els) + tail) == Parsed(els, tail)
    requires Parse(Flatten(body) + stop) == Parsed(body, stop)
    ensures Parse(Flatten(BlockOf(line, body, form, els, next)) + rest) == Parsed(BlockOf(line, body, form, els, next), rest)
  {
    BlockLines(line, body, form, els, next, rest);
    StopLines(form, els, tail);
    ParseElsePart(line, form, els, tail, stop);
    ParseParts(line, body, form, els, next, rest, tail, stop, [line] + (Flatten(body) + stop));
  }

  lemma ParseElsePart(line: Line, form: ElseForm, els: Prog, tail: seq<Line>, stop: seq<Line>)
    requires PartsOk(line, form, els) && tail != [] && tail[0] == End
    requires stop == if form.NoElse? then tail else [Else(form.SpacedElse?)] + (Flatten(els) + tail)
    requires !form.NoElse? ==> Parse(Flatten(els) + tail) == Parsed(els, tail)
    ensures ParseElse(line, stop) == ElsePart(form, els, tail) && AtStop(stop)
  {
    if !form.NoElse? { HeadTail(Else(form.SpacedElse?), Flatten(els) + tail); }
  }

  lemma ParseParts(line: Line, body: Prog, form: ElseForm, els: Prog, next: Prog, rest: seq<Line>, tail: seq<Line>,
                   stop: seq<Line>, lines: seq<Line>)
    requires Opener(line) && tail == [End] + (Flatten(next) + rest) && lines == [line] + (Flatten(body) + stop)
    requires ParseElse(line, stop) == ElsePart(form, els, tail)
    requires Parse(Flatten(body) + stop) == Parsed(body, stop) && Parse(Flatten(next) + rest) == Parsed(next, rest)
    ensures Parse(lines) == Parsed(BlockOf(line, body, form, els, next), rest)
  {
    HeadTail(line, Flatten(body) + stop);
    HeadTail(End, Flatten(next) + rest);
  }

  lemma StopLines(form: ElseForm, els: Prog, tail: seq<Line>)
    ensures ElseLines(form, els) + tail == if form.NoElse? then tail else [Else(form.SpacedElse?)] + (Flatten(els) + tail)
  {
    if form.NoElse? {
      assert [] + tail == tail;
    } else {
      Associate([Else(form.SpacedElse?)], Flatten(els), tail);
    }
  }

  // ---- flattening undoes parsing ----

  /** A program read off the front of some lines. */
  predicate Read(lines: seq<Line>, p: Prog, rest: seq<Line>) {
    Flatten(p) + rest == lines && Tidy(p) && AtStop(rest)
  }

  /** What was parsed, flattened, is the part of the lines that was read. */
  lemma {:induction false} FlattenParse(lines: seq<Line>)
    requires Parse(lines).Parsed?
    ensures Read(lines, Parse(lines).p, Parse(lines).rest)
    decreases |lines|, 1
  {
    if AtStop(lines) {
      assert Flatten(Skip) + lines == lines;
    } else {
      var body := Parse(lines[1..]);
      FlattenParse(lines[1..]);
      if Opener(lines[0]) {
        var e := ParseElse(lines[0], body.rest);
        FlattenElse(lines[0], body.rest);
        FlattenParse(e.rest[1..]);
        JoinBlock(lines, body, e, Parse(e.rest[1..]));
      } else {
        JoinPlain(lines, body.p, body.rest);
      }
    }
  }

  lemma JoinPlain(lines: seq<Line>, next: Prog, rest: seq<Line>)
    requires lines != [] && (lines[0].Instr? || lines[0].Call? || lines[0].Var?) && Read(lines[1..], next, rest)
    ensures Read(lines, PlainLine(lines[0], next), rest)
  {
    PlainLines(lines[0], next, rest);
    assert lines == [lines[0]] + lines[1..];
  }

  lemma JoinBlock(lines: seq<Line>, body: Parsed, e: ElsePart, next: Parsed)
    requires lines != [] && body.Parsed? && e.ElsePart? && next.Parsed? && PartsOk(lines[0], e.form, e.els)
    requires Read(lines[1..], body.p, body.rest) && Tidy(e.els)
    requires ElseLines(e.form, e.els) + e.rest == body.rest && e.rest != [] && e.rest[0] == End
    requires Read(e.rest[1..], next.p, next.rest)
    ensures Read(lines, BlockOf(lines[0], body.p, e.form, e.els, next.p), next.rest)
  {
    BlockLines(lines[0], body.p, e.form, e.els, next.p, next.rest);
    TidyBlock(lines[0], body.p, e.form, e.els, next.p);
    assert lines == [lines[0]] + lines[1..] && e.rest == [End] + e.rest[1..];
  }

  lemma TidyBlock(line: Line, body: Prog, form: ElseForm, els: Prog, next: Prog)
    requires PartsOk(line, form, els) && Tidy(body) && Tidy(els) && Tidy(next)
    ensures Tidy(BlockOf(line, body, form, els, next))
  {}

  lemma {:induction false} FlattenElse(line: Line, stop: seq<Line>)
    requires ParseElse(line, stop).ElsePart? && Opener(line)
    ensures var e := ParseElse(line, stop);
            ElseLines(e.form, e.els) + e.rest == stop && Tidy(e.els) && PartsOk(line, e.form, e.els)
    decreases |stop|, 0
  {
    if line.If? && stop != [] && stop[0].Else? {
      var els := Parse(stop[1..]);
      FlattenParse(stop[1..]);
      var form := if stop[0].spaced then SpacedElse else BareElse;
      StopLines(form, els.p, els.rest);
      assert stop == [Else(form.SpacedElse?)] + stop[1..];
    } else {
      StopLines(NoElse, Skip, stop);
    }
  }

  // ---- well nested means parsable ----

  /** The lines of a tree leave the nesting as they found it. */
  lemma {:induction false} TreeNests(p: Prog, stack: seq<Frame>, rest: seq<Line>)
    requires Tidy(p)
    ensures WellNested(stack, Flatten(p) + rest) == WellNested(stack, rest)
    decreases p
  {
    match p
    case Skip => assert Flatten(p) + rest == rest;
    case PInstr(op, ops, next) => PlainNests(Instr(op, ops), next, stack, rest); TreeNests(next, stack, rest);
    case PCall(f, ops, next) => PlainNests(Call(f, ops), next, stack, rest); TreeNests(next, stack, rest);
    case PVar(x, val, next) => PlainNests(Var(x, val), next, stack, rest); TreeNests(next, stack, rest);
    case PFor(v, a, cv, b, iv, s, body, next) =>
      var tail := [End] + (Flatten(next) + rest);
      TreeNests(next, stack, rest);
      TreeNests(body, stack + [Frame(KFor, false)], tail);
      BlockNests(For(v, a, cv, b, iv, s), body, NoElse, Skip, next, stack, rest, tail, tail);
    case PFunction(f, ps, body, next) =>
      var tail := [End] + (Flatten(next) + rest);
      TreeNests(next, stack, rest);
      TreeNests(body, stack + [Frame(KFunction, false)], tail);
      BlockNests(Function(f, ps), body, NoElse, Skip, next, stack, rest, tail, tail);
    case PIf(c, thn, form, els, next) =>
      var tail := [End] + (Flatten(next) + rest);
      var stop := if form.NoElse? then tail else [Else(form.SpacedElse?)] + (Flatten(els) + tail);
      TreeNests(next, stack, rest);
      TreeNests(els, stack + [Frame(KIf, true)], tail);
      TreeNests(thn, stack + [Frame(KIf, false)], stop);
      BlockNests(If(c), thn, form, els, next, stack, rest, tail, stop);
  }

  lemma PlainNests(line: Line, next: Prog, stack: seq<Frame>, rest: seq<Line>)
    requires line.Instr? || line.Call? || line.Var?
    ensures WellNested(stack, Flatten(PlainLine(line, next)) + rest) == WellNested(stack, Flatten(next) + rest)
  {
    PlainLines(line, next, rest);
    HeadTail(line, Flatten(next) + rest);
  }

  lemma EndNests(stack: seq<Frame>, f: Frame, rest: seq<Line>)
    ensures WellNested(stack + [f], [End] + rest) == WellNested(stack, rest)
  {
    HeadTail(End, rest);
    assert (stack + [f])[..|stack|] == stack;
  }

  lemma ElseNests(stack: seq<Frame>, spaced: bool, rest: seq<Line>)
    ensures WellNested(stack + [Frame(KIf, false)], [Else(spaced)] + rest) == WellNested(stack + [Frame(KIf, true)], rest)
  {
    HeadTail(Else(spaced), rest);
    assert (stack + [Frame(KIf, false)])[..|stack|] == stack;
  }

  lemma BlockNests(line: Line, body: Prog, form: ElseForm, els: Prog, next: Prog, stack: seq<Frame>, rest: seq<Line>,
                   tail: seq<Line>, stop: seq<Line>)
    requires PartsOk(line, form, els) && tail == [End] + (Flatten(next) + rest)
    requires stop == if form.NoElse? then tail else [Else(form.SpacedElse?)] + (Flatten(els) + tail)
    requires WellNested(stack, Flatten(next) + rest) == WellNested(stack, rest)
    requires !form.NoElse? ==>
               WellNested(stack + [Frame(KIf, true)], Flatten(els) + tail) == WellNested(stack + [Frame(KIf, true)], tail)
    requires var in' := stack + [Frame(KindOf(line), false)];
             WellNested(in', Flatten(body) + stop) == WellNested(in', stop)
    ensures WellNested(stack, Flatten(BlockOf(line, body, form, els, next)) + rest) == WellNested(stack, rest)
  {
    BlockLines(line, body, form, els, next, rest);
    StopLines(form, els, tail);
    HeadTail(line, Flatten(body) + stop);
    if form.NoElse? {
      EndNests(stack, Frame(KindOf(line), false), Flatten(next) + rest);
    } else {
      ElseNests(stack, form.SpacedElse?, Flatten(els) + tail);
      EndNests(stack, Frame(KIf, true), Flatten(next) + rest);
    }
  }

  /** Well-nested lines parse, and what is left is where the enclosing block goes on. */
  lemma {:induction false} NestedParses(stack: seq<Frame>, lines: seq<Line>)
    requires WellNested(stack, lines)
    ensures Parse(lines).Parsed? && WellNested(stack, Parse(lines).rest) && AtStop(Parse(lines).rest)
    decreases |lines|, 1
  {
    if !AtStop(lines) {
      if Opener(lines[0]) {
        OpenerParses(stack, lines);
      } else {
        NestedParses(stack, lines[1..]);
      }
    }
  }

  lemma {:induction false} OpenerParses(stack: seq<Frame>, lines: seq<Line>)
    requires lines != [] && Opener(lines[0]) && WellNested(stack, lines)
    ensures Parse(lines).Parsed? && WellNested(stack, Parse(lines).rest) && AtStop(Parse(lines).rest)
    decreases |lines|, 0
  {
    var f := Frame(KindOf(lines[0]), false);
    NestedParses(stack + [f], lines[1..]);
    var stop := Parse(lines[1..]).rest;
    ElseParses(stack, lines[0], stop);
    NestedParses(stack, ParseElse(lines[0], stop).rest[1..]);
  }

  lemma {:induction false} ElseParses(stack: seq<Frame>, line: Line, stop: seq<Line>)
    requires Opener(line) && AtStop(stop) && WellNested(stack + [Frame(KindOf(line), false)], stop)
    ensures var e := ParseElse(line, stop);
            e.ElsePart? && e.rest != [] && e.rest[0].End? && WellNested(stack, e.rest[1..])
    decreases |stop|, 1
  {
    var in' := stack + [Frame(KindOf(line), false)];
    assert in'[..|in'| - 1] == stack && in'[|in'| - 1] == Frame(KindOf(line), false);
    if stop[0].Else? {
      var in2 := stack + [Frame(KIf, true)];
      NestedParses(in2, stop[1..]);
      assert in2[..|in2| - 1] == stack && in2[|in2| - 1] == Frame(KIf, true);
    }
  }

  /** A line sequence is well nested exactly when it is the flattening of a tidy tree; the tree is the parsed
      one, and there is no other. */
  lemma WellNestedIsTree(lines: seq<Line>)
    ensures WellNested([], lines) <==> exists p :: Tidy(p) && Flatten(p) == lines
    ensures WellNested([], lines) ==> Parse(lines).Parsed? && Tidy(Parse(lines).p) && Flatten(Parse(lines).p) == lines
    ensures forall p :: Tidy(p) && Flatten(p) == lines ==> Parse(lines) == Parsed(p, [])
  {
    if WellNested([], lines) {
      NestedParses([], lines);
      FlattenParse(lines);
      assert Parse(lines).rest == [];
      assert Flatten(Parse(lines).p) + [] == Flatten(Parse(lines).p);
    }
    forall p | Tidy(p) && Flatten(p) == lines
      ensures Parse(lines) == Parsed(p, []) && WellNested([], lines)
    {
      ParseFlatten(p, []);
      TreeNests(p, [], []);
      assert Flatten(p) + [] == lines;
    }
  }

  /** Meaning preservation for scripts given as lines: every well-nested script, converted and assembled, runs
      its tree on the text, and if the tree is convertible it runs as in the source. */
  lemma ScriptMeaningPreserved(lines: seq<Line>, depth: nat, ev: G.Evaluator)
    requires WellNested([], lines)
    ensures Parse(lines).Parsed?
    ensures var p, assembled := Parse(lines).p, G.Assemble(depth, T.TranslateFrom(T.START, lines), NOTHING_READ, ev);
            && SameEnd(M.Run(depth, p, AS_TEXT, NOTHING_RUN, ev), assembled)
            && (Convertible(p) ==> SameEnd(M.Run(depth, p, AS_SOURCE, NOTHING_RUN, ev), assembled))
  {
    WellNestedIsTree(lines);
    ConvertedMeaning(Parse(lines).p, depth, ev);
    if Convertible(Parse(lines).p) { MeaningPreserved(Parse(lines).p, depth, ev); }
  }
}
