/** The scope stack of the converter on arbitrary line sequences, well nested or not. */
module Sp3Scope {
  import opened Sp3Syntax
  import opened T = Sp3Translator

  /** Some `end` closes a block that is `level` blocks further out than the first line. */
  predicate Closed(lines: seq<Line>, level: nat) {
    lines != [] &&
    if lines[0].End? then level == 0 || Closed(lines[1..], level - 1)
    else Closed(lines[1..], if Opener(lines[0]) then level + 1 else level)
  }

  /** The kinds of the blocks that are never closed, in order, each judged by the lines after it. */
  function OpenBlocks(lines: seq<Line>): seq<Kind> {
    if lines == [] then []
    else if Opener(lines[0]) && !Closed(lines[1..], 0) then [KindOf(lines[0])] + OpenBlocks(lines[1..])
    else OpenBlocks(lines[1..])
  }

  /** How many `end`s have no opener in these lines. */
  function Unmatched(lines: seq<Line>): nat {
    if lines == [] then 0
    else
      var u := Unmatched(lines[1..]);
      if lines[0].End? then u + 1
      else if Opener(lines[0]) && u > 0 then u - 1
      else u
  }

  lemma {:induction false} ClosedCounts(lines: seq<Line>, level: nat)
    ensures Closed(lines, level) <==> Unmatched(lines) > level
    decreases |lines|
  {
    if lines != [] {
      if lines[0].End? {
        if level > 0 { ClosedCounts(lines[1..], level - 1); }
      } else {
        ClosedCounts(lines[1..], if Opener(lines[0]) then level + 1 else level);
      }
    }
  }

  /** From any starting stack: the unmatched `end`s pop it, and the still-open blocks are pushed on what
      is left. */
  lemma {:induction false} ScopeAfter(st: State, lines: seq<Line>)
    ensures var u := Unmatched(lines);
            StateAfter(st, lines).scope
            == (if u <= |st.scope| then st.scope[..|st.scope| - u] else []) + OpenBlocks(lines)
    decreases |lines|
  {
    if lines == [] {
      assert st.scope[..|st.scope|] == st.scope;
    } else {
      var st', rest := NextState(st, lines[0]), lines[1..];
      ScopeAfter(st', rest);
      ClosedCounts(rest, 0);
      var u := Unmatched(rest);
      if Opener(lines[0]) {
        var k := KindOf(lines[0]);
        assert st'.scope == st.scope + [k];
        if u == 0 {
          assert st'.scope[..|st'.scope|] == st.scope + [k];
          assert st.scope + [k] + OpenBlocks(rest) == st.scope + ([k] + OpenBlocks(rest));
          assert st.scope[..|st.scope|] == st.scope;
        } else if u <= |st'.scope| {
          assert st'.scope[..|st'.scope| - u] == st.scope[..|st.scope| - (u - 1)];
        }
      } else if lines[0].End? && st.scope != [] {
        assert st'.scope == st.scope[..|st.scope| - 1];
        if u <= |st'.scope| {
          assert st'.scope[..|st'.scope| - u] == st.scope[..|st.scope| - (u + 1)];
        }
      }
    }
  }

  /** After every prefix of every input, the scope stack is the list of blocks still open in it. */
  lemma ScopeIsOpenBlocks(lines: seq<Line>, n: nat)
    requires n <= |lines|
    ensures StateAfter(START, lines[..n]).scope == OpenBlocks(lines[..n])
  {
    ScopeAfter(START, lines[..n]);
  }

  predicate Closer(o: Out, k: Kind) {
    match k
    case KFor => o == Endr
    case KIf => o == Endif
    case KFunction => o == Endm
  }

  lemma {:induction false} OutputAt(st: State, lines: seq<Line>, n: nat)
    requires n < |lines|
    ensures TranslateFrom(st, lines)[n] == Emit(StateAfter(st, lines[..n]), lines[n])
    decreases n
  {
    if n > 0 {
      OutputAt(NextState(st, lines[0]), lines[1..], n - 1);
      assert lines[..n][1..] == lines[1..][..n - 1];
    }
  }

  /** The line written for an `end` closes the innermost block still open, with the closer of its kind;
      with no block open the `end` is passed through. */
  lemma EndClosesInnermost(lines: seq<Line>, n: nat)
    requires n < |lines| && lines[n].End?
    ensures var open, o := OpenBlocks(lines[..n]), TranslateFrom(START, lines)[n];
            if open == [] then o == Stmt(Plain("end"), []) else Closer(o, open[|open| - 1])
  {
    OutputAt(START, lines, n);
    ScopeIsOpenBlocks(lines, n);
  }

  // ---- balance ----

  /** An input is balanced when every `end` has an opener and every opener an `end`. */
  predicate BalancedInput(lines: seq<Line>) { OpenBlocks(lines) == [] && Unmatched(lines) == 0 }

  datatype Nesting = Nesting(open: seq<Kind>) | Broken

  /** One step of a checker for assembler blocks: closers must match the innermost opener. */
  function Nest(s: Nesting, o: Out): Nesting {
    if s.Broken? then Broken
    else
      match o
      case Irp(_, _) => Nesting(s.open + [KFor])
      case IfDir(_) => Nesting(s.open + [KIf])
      case Macro(_, _) => Nesting(s.open + [KFunction])
      case Endr => Leave(s, KFor)
      case Endif => Leave(s, KIf)
      case Endm => Leave(s, KFunction)
      case Stmt(h, ops) => if h == Plain("end") && ops == [] then Broken else s
      case _ => s
  }

  function Leave(s: Nesting, k: Kind): Nesting
    requires s.Nesting?
  {
    if s.open != [] && s.open[|s.open| - 1] == k then Nesting(s.open[..|s.open| - 1]) else Broken
  }

  function NestAll(s: Nesting, out: seq<Out>): Nesting
    decreases |out|
  {
    if out == [] then s else NestAll(Nest(s, out[0]), out[1..])
  }

  predicate BalancedOutput(out: seq<Out>) { NestAll(Nesting([]), out) == Nesting([]) }

  /** A line whose only word is `end` is an `end` line, not an instruction or a call. */
  predicate NoEndWords(lines: seq<Line>) {
    forall i :: 0 <= i < |lines| ==>
      && (lines[i].Instr? && lines[i].operands == [] ==> lines[i].op.name != "end")
      && (lines[i].Call? && lines[i].args == [] ==> lines[i].callee != "end")
  }

  lemma {:induction false} NestBroken(out: seq<Out>)
    ensures NestAll(Broken, out) == Broken
    decreases |out|
  {
    if out != [] { NestBroken(out[1..]); }
  }

  lemma {:induction false} NestFollowsScope(st: State, lines: seq<Line>)
    requires NoEndWords(lines)
    ensures NestAll(Nesting(st.scope), TranslateFrom(st, lines))
            == if Unmatched(lines) > |st.scope| then Broken else Nesting(StateAfter(st, lines).scope)
    decreases |lines|
  {
    if lines != [] {
      var out := TranslateFrom(st, lines);
      assert out[1..] == TranslateFrom(NextState(st, lines[0]), lines[1..]);
      if lines[0].End? && st.scope == [] {
        NestBroken(out[1..]);
      } else {
        NestLine(st, lines[0]);
        NestFollowsScope(NextState(st, lines[0]), lines[1..]);
      }
    }
  }

  /** One line moves the checker as it moves the scope stack. */
  lemma NestLine(st: State, line: Line)
    requires NoEndWords([line]) && (line.End? ==> st.scope != [])
    ensures Nest(Nesting(st.scope), Emit(st, line)) == Nesting(NextState(st, line).scope)
  {
    assert [line][0] == line;
  }

  /** The output nests properly exactly when the input does. */
  lemma BalanceKept(lines: seq<Line>)
    requires NoEndWords(lines)
    ensures BalancedOutput(TranslateFrom(START, lines)) <==> BalancedInput(lines)
  {
    NestFollowsScope(START, lines);
    ScopeAfter(START, lines);
  }
}
