/** librxvm/rxvm.c: compile, match and search, and what they add up to. */
module Rxvm {
  import opened Regex
  import opened Program
  import opened CodeGen
  import opened CodeMeaning
  import opened ThreadSets
  import opened Lexer
  import opened Context
  import opened Sentences
  import Compilation
  import SimpleMatch
  import Stage1Main
  import Stage2
  import Vm
  import WellFormed

  /** rxvm_t: the text of an expression of literals, or a program. */
  datatype Pattern = TextOnly(text: string) | Exe(prog: seq<Inst>)

  /** What rxvm_compile makes of the result of stage 1. */
  function Finished(c: Compiled): Pattern
    requires c.Code? ==> Stage2.JumpsForward(Link(c.code))
  {
    match c
    case Literals(text) => TextOnly(text)
    case Code(code, chained) => Exe(if chained then Stage2.Collapse(Link(code)) else Link(code))
  }

  function Built(exp: string): (r: Result<Pattern>)
    ensures r.Ok? && r.value.Exe? ==> ProgramOk(r.value.prog)
  {
    match Stage1(exp)
    case Err(e) => Err(e)
    case Ok(c) =>
      CompiledForward(exp, c);
      Ok(Finished(c))
  }

  /** Every program handed to the machine is well-formed, shortened or not. */
  lemma CompiledForward(exp: string, c: Compiled)
    requires Stage1(exp) == Ok(c)
    ensures c.Code? ==>
      && |c.code| > 0 && !c.code[|c.code| - 1].Jmp?
      && Stage2.JumpsForward(Link(c.code)) && ProgramOk(Finished(c).prog)
  {
    if c.Code? {
      WellFormed.CompiledOk(exp);
      var body := c.code[..|c.code| - 1];
      assert c.code == body + [Match];
      LinkedOk(body);
      Stage2.CollapseOk(Link(c.code));
    }
  }

  /** rxvm_compile. */
  method Compile(exp: string) returns (r: Result<Pattern>)
    ensures r == Built(exp)
  {
    var ir := Stage1Main.Compile(exp);
    match ir {
      case Err(e) => return Err(e);
      case Ok(c) =>
        CompiledForward(exp, c);
        match c {
          case Literals(text) => r := Ok(TextOnly(text));
          case Code(code, chained) =>
            var exe := Stage2.Assemble(code, chained);
            r := Ok(Exe(exe[..]));
        }
    }
  }

  // ----- match -----

  /** The whole input is in the language of the compiled expression. */
  ghost predicate Matches(rx: Pattern, input: string, icase: bool) {
    match rx
    case TextOnly(text) => SimpleMatch.SameText(icase, SimpleMatch.Unescape(text), input)
    case Exe(prog) => Accepts(prog, Env(input, icase, true), 0, |input|)
  }

  ghost predicate Usable(rx: Pattern) {
    match rx
    case TextOnly(text) => SimpleMatch.WellEscaped(text)
    case Exe(prog) => ProgramOk(prog)
  }

  lemma MatchOutcome(prog: seq<Inst>, env: Env)
    requires ProgramOk(prog) && NulFree(env.text)
    ensures var o := Execution(prog, env, false, false, 0);
      Accepts(prog, env, 0, |env.text|) <==>
      o.ret == 0 && o.matchEnd != 0 && CharAt(env.text, o.matchEnd - 1) == '\0'
  {
    var n := |env.text|;
    var d := Dead(prog, env, 0, 0);
    LastAcceptHolds(prog, env, 0, 0, d);
    if Accepts(prog, env, 0, n) {
      AcceptedInTime(prog, env, 0, n);
    }
  }

  /** rxvm_match: 1 exactly when the whole input is matched. */
  method Matching(rx: Pattern, input: string, icase: bool) returns (ret: int)
    requires Usable(rx) && NulFree(input)
    ensures ret == if Matches(rx, input, icase) then 1 else 0
  {
    var matchEnd;
    match rx {
      case TextOnly(text) =>
        var ok, start;
        ok, start, matchEnd := SimpleMatch.Run(text, input, icase, false);
        assert |SimpleMatch.Unescape(text)| == |input| ==> input[..|input|] == input;
        if ok == 0 {
          return 0;
        }
      case Exe(prog) =>
        MatchOutcome(prog, Env(input, icase, true));
        var tm := new Vm.Threads(prog, input, icase, false, true, false);
        ghost var steps;
        var dead;
        dead, steps := tm.Execute();
        matchEnd := tm.matchEnd;
        if dead != 0 {
          return 0;
        }
    }
    ret := if matchEnd != 0 && CharAt(input, matchEnd - 1) == '\0' then 1 else 0;
  }

  // ----- expressions of literals -----

  function Chars(toks: seq<Token>): string
    requires AllLiterals(toks)
  {
    if toks == [] then "" else
      assert toks[0].Literal?;
      [toks[0].c] + Chars(toks[1..])
  }

  /** A text that lexes to literals only: nothing but characters and escaped characters. */
  lemma {:induction false} LiteralsText(text: string, p: int, toks: seq<Token>)
    requires 0 <= p <= |text| && AllLiterals(toks) && LexAll(text, p, false) == toks + [End]
    ensures SimpleMatch.WellEscaped(text[p..]) && SimpleMatch.Unescape(text[p..]) == Chars(toks)
    decreases |text| - p
  {
    var r := LexAt(text, p, false);
    if toks == [] {
      assert (toks + [End])[0] == End;
    } else {
      assert (toks + [End])[0] == toks[0] && toks[0].Literal?;
      Stage1Main.LiteralText(text, p);
      assert (toks + [End])[1..] == toks[1..] + [End];
      LiteralsText(text, r.next, toks[1..]);
      assert text[p..][1..] == text[p + 1..];
      if text[p] == '\\' { assert text[p..][2..] == text[p + 2..] && text[p..][1] == text[p + 1]; }
    }
  }

  lemma CharsConcat(a: seq<Token>, b: seq<Token>)
    requires AllLiterals(a) && AllLiterals(b)
    ensures AllLiterals(a + b) && Chars(a + b) == Chars(a) + Chars(b)
  {
    if a == [] {
      assert a + b == b;
    } else {
      assert (a + b)[1..] == a[1..] + b && (a + b)[0] == a[0];
      CharsConcat(a[1..], b);
      assert Chars(a + b) == [a[0].c] + (Chars(a[1..]) + Chars(b));
    }
  }

  /** u stands at [i, j). */
  ghost predicate TextAt(env: Env, u: string, i: int, j: int) {
    Occurs(env.icase, u, env.text, i) && j == i + |u|
  }

  lemma AllLiteralsSplit(a: seq<Token>, b: seq<Token>)
    requires AllLiterals(a + b)
    ensures AllLiterals(a) && AllLiterals(b)
  {
    forall k | 0 <= k < |a| ensures a[k].Literal? { assert (a + b)[k] == a[k]; }
    forall k | 0 <= k < |b| ensures b[k].Literal? { assert (a + b)[|a| + k] == b[k]; }
  }

  lemma QuantNotLiteral(q: Quant)
    requires q != Once
    ensures !AllLiterals(QuantTokens(q))
  {
    assert !QuantTokens(q)[0].Literal?;
  }

  lemma ElemNotLiteral(e: Elem)
    requires !e.Lit?
    ensures !AllLiterals(ElemTokens(e))
  {
    assert !ElemTokens(e)[0].Literal?;
  }

  lemma UnionNotLiteral(l: Re, r: Cat)
    ensures !AllLiterals(ReTokens(Union(l, r)))
  {
    assert ReTokens(Union(l, r))[|ReTokens(l)|] == Alt;
  }

  lemma LiteralBasic(b: Basic)
    requires BasicWritten(b) && AllLiterals(BasicTokens(b))
    ensures b.quant == Once && b.elem.Lit? && Chars(BasicTokens(b)) == [b.elem.ch.c]
  {
    AllLiteralsSplit(ElemTokens(b.elem), QuantTokens(b.quant));
    if b.quant != Once { QuantNotLiteral(b.quant); }
    if !b.elem.Lit? { ElemNotLiteral(b.elem); }
    assert BasicTokens(b) == [Literal(b.elem.ch.c)] && BasicTokens(b)[1..] == [];
  }

  lemma LiteralMatch(b: Basic, env: Env, i: int, j: int)
    requires BasicWritten(b) && b.quant == Once && b.elem.Lit?
    ensures MatchBasic(b, env, i, j) <==> TextAt(env, [b.elem.ch.c], i, j)
  {
    IterateOnce(b.elem, env, i, j);
    assert MatchBasic(b, env, i, j) <==> Iterate(b.elem, env, 1, i, j);
    if TextAt(env, [b.elem.ch.c], i, j) { assert CharEq(env.icase, env.text[i + 0], [b.elem.ch.c][0]); }
  }

  /** Literals in a row match their characters. */
  lemma {:induction false} LiteralsMatch(c: Cat, env: Env, i: int, j: int)
    requires CatWritten(c) && AllLiterals(CatTokens(c)) && 0 <= i <= |env.text|
    ensures MatchCat(c, env, i, j) <==> TextAt(env, Chars(CatTokens(c)), i, j)
    decreases c
  {
    match c
    case Empty =>
    case Then(init, last) =>
      AllLiteralsSplit(CatTokens(init), BasicTokens(last));
      CharsConcat(CatTokens(init), BasicTokens(last));
      LiteralBasic(last);
      var u, v := Chars(CatTokens(init)), Chars(BasicTokens(last));
      assert MatchCat(c, env, i, j) <==> exists m :: MatchCat(init, env, i, m) && MatchBasic(last, env, m, j);
      forall m ensures MatchCat(init, env, i, m) <==> TextAt(env, u, i, m) {
        LiteralsMatch(init, env, i, m);
      }
      forall m ensures MatchBasic(last, env, m, j) <==> TextAt(env, v, m, j) {
        LiteralMatch(last, env, m, j);
      }
      TextAtConcat(env, u, v, i, j);
      if MatchCat(c, env, i, j) {
        var m :| MatchCat(init, env, i, m) && MatchBasic(last, env, m, j);
        assert TextAt(env, u, i, m) && TextAt(env, v, m, j);
      }
      if TextAt(env, u + v, i, j) {
        assert MatchCat(init, env, i, i + |u|) && MatchBasic(last, env, i + |u|, j);
      }
  }

  lemma TextAtConcat(env: Env, u: string, v: string, i: int, j: int)
    ensures TextAt(env, u + v, i, j) <==> TextAt(env, u, i, i + |u|) && TextAt(env, v, i + |u|, j)
  {
    if TextAt(env, u + v, i, j) {
      forall k | 0 <= k < |u| ensures CharEq(env.icase, env.text[i + k], u[k]) { assert (u + v)[k] == u[k]; }
      forall k | 0 <= k < |v| ensures CharEq(env.icase, env.text[i + |u| + k], v[k]) {
        assert (u + v)[|u| + k] == v[k] && CharEq(env.icase, env.text[i + (|u| + k)], (u + v)[|u| + k]);
      }
    }
    if TextAt(env, u, i, i + |u|) && TextAt(env, v, i + |u|, j) {
      forall k | 0 <= k < |u + v| ensures CharEq(env.icase, env.text[i + k], (u + v)[k]) {
        if k >= |u| { assert CharEq(env.icase, env.text[i + |u| + (k - |u|)], v[k - |u|]); }
      }
    }
  }

  // ----- end to end -----

  /** A sentence that is all literals is kept as text. */
  lemma LiteralKept(re: Re)
    requires ReWritten(re) && AllLiterals(ReTokens(re))
    ensures Built(PrintRe(re)) == Ok(TextOnly(PrintRe(re))) && SimpleMatch.WellEscaped(PrintRe(re))
    ensures SimpleMatch.Unescape(PrintRe(re)) == Chars(ReTokens(re))
  {
    var text, toks := PrintRe(re), ReTokens(re);
    SentenceLexes(re);
    LiteralsText(text, 0, toks);
    assert text[0..] == text;
    assert (toks + [End])[..|toks|] == toks;
    assert Stage1(text) == Ok(Literals(text));
  }

  lemma LiteralSentence(re: Re, input: string, icase: bool)
    requires ReWritten(re) && AllLiterals(ReTokens(re))
    ensures Matches(TextOnly(PrintRe(re)), input, icase) <==> MatchRe(re, Env(input, icase, true), 0, |input|)
  {
    LiteralKept(re);
    if re.Union? {
      UnionNotLiteral(re.left, re.right);
    } else {
      var env := Env(input, icase, true);
      LiteralsMatch(re.body, env, 0, |input|);
    }
  }

  /** The program of a sentence: the linked code of its tree, with its chains of jumps shortened
      if a second bar follows a first one in some group. */
  lemma SentenceBuilt(re: Re)
    requires ReWritten(re) && !AllLiterals(ReTokens(re)) && Compilation.ReCounts(re)
    ensures var prog := Link(ReCode(re) + [Match]);
      && ProgramOk(prog) && Stage2.JumpsForward(prog)
      && Built(PrintRe(re)) == Ok(Exe(if Compilation.ReChains(re) then Stage2.Collapse(prog) else prog))
  {
    Compilation.SentenceCode(re);
    ReCodeOk(re);
    LinkedOk(ReCode(re));
    Stage2.CollapseOk(Link(ReCode(re) + [Match]));
  }

  lemma {:induction false} LiteralsUnchained(c: Cat)
    requires CatWritten(c) && AllLiterals(CatTokens(c))
    ensures !Compilation.CatChains(c)
    decreases c
  {
    if c.Then? {
      AllLiteralsSplit(CatTokens(c.init), BasicTokens(c.last));
      LiteralBasic(c.last);
      LiteralsUnchained(c.init);
    }
  }

  /** If a second bar follows a first one in some group, no jump of the program leads to a jump. */
  lemma ChainsShortened(re: Re)
    requires ReWritten(re) && Compilation.ReCounts(re) && Compilation.ReChains(re)
    ensures Built(PrintRe(re)).Ok? && Built(PrintRe(re)).value.Exe?
    ensures var prog := Built(PrintRe(re)).value.prog;
      forall k :: 0 <= k < |prog| && prog[k].Jmp? ==> 0 <= prog[k].x < |prog| && !prog[prog[k].x].Jmp?
  {
    if AllLiterals(ReTokens(re)) {
      if re.Union? { UnionNotLiteral(re.left, re.right); } else { LiteralsUnchained(re.body); }
    }
    SentenceBuilt(re);
    Stage2.CollapseOk(Link(ReCode(re) + [Match]));
  }

  /** A sentence that has to be compiled. */
  lemma CompiledSentence(re: Re, input: string, icase: bool)
    requires ReWritten(re) && !AllLiterals(ReTokens(re)) && Compilation.ReCounts(re)
    ensures Built(PrintRe(re)).Ok? && Usable(Built(PrintRe(re)).value)
    ensures Matches(Built(PrintRe(re)).value, input, icase) <==> MatchRe(re, Env(input, icase, true), 0, |input|)
  {
    var env := Env(input, icase, true);
    SentenceBuilt(re);
    ProgramMeaning(re, env, 0, |input|);
    Stage2.CollapsePreserves(Link(ReCode(re) + [Match]), env, 0, |input|);
  }

  lemma LiteralCounts(re: Re)
    requires ReWritten(re) && AllLiterals(ReTokens(re))
    ensures Compilation.ReCounts(re)
  {
    if re.Union? {
      UnionNotLiteral(re.left, re.right);
    } else {
      LiteralCatCounts(re.body);
    }
  }

  lemma {:induction false} LiteralCatCounts(c: Cat)
    requires CatWritten(c) && AllLiterals(CatTokens(c))
    ensures Compilation.CatCounts(c)
    decreases c
  {
    if c.Then? {
      AllLiteralsSplit(CatTokens(c.init), BasicTokens(c.last));
      LiteralBasic(c.last);
      LiteralCatCounts(c.init);
    }
  }

  /** End to end. A sentence of the grammar compiles unless one of its counts allows zero
      repetitions only, and then rxvm_match says of every input whether the whole of it is in the
      language of the sentence, anchors being read as line anchors. */
  lemma EndToEnd(re: Re)
    requires ReWritten(re)
    ensures Built(PrintRe(re)).Ok? <==> Compilation.ReCounts(re)
    ensures !Compilation.ReCounts(re) ==> Built(PrintRe(re)) == Err(BadOp)
    ensures Compilation.ReCounts(re) ==>
      && Usable(Built(PrintRe(re)).value)
      && forall input, icase :: Matches(Built(PrintRe(re)).value, input, icase) <==>
                                MatchRe(re, Env(input, icase, true), 0, |input|)
  {
    if AllLiterals(ReTokens(re)) {
      LiteralCounts(re);
      LiteralKept(re);
      forall input, icase ensures Matches(TextOnly(PrintRe(re)), input, icase) <==>
                                  MatchRe(re, Env(input, icase, true), 0, |input|)
      {
        LiteralSentence(re, input, icase);
      }
    } else {
      Compilation.SentenceCode(re);
      if Compilation.ReCounts(re) {
        CompiledSentence(re, "", false);
        forall input, icase ensures Matches(Built(PrintRe(re)).value, input, icase) <==>
                                    MatchRe(re, Env(input, icase, true), 0, |input|)
        {
          CompiledSentence(re, input, icase);
        }
      }
    }
  }
}
