/** Every pattern that compiles, sentence of the grammar or not, gives a well-formed program. */
module WellFormed {
  import opened Regex
  import opened Program
  import opened CodeGen
  import opened CodeMeaning
  import opened Lexer
  import opened Context

  /** Instructions with no targets: they may stand anywhere. */
  predicate Plain(code: seq<Inst>) {
    forall k :: 0 <= k < |code| ==>
      && !code[k].Branch? && !code[k].Jmp? && code[k] != Match
      && (code[k].Class? || code[k].NClass? ==> |code[k].members| > 0)
  }

  /** Well-formed but for the jump that still waits for its target. */
  predicate StackFine(s: Stack) {
    && StackOk(s)
    && (forall k :: 0 <= k < |s.code| && k != s.dangling ==> InstOk(s.code[k], k, |s.code|))
    && (s.dangling >= 0 ==> s.dsize == s.dangling + 1 && s.code[s.dangling].Jmp?)
  }

  ghost predicate Tidy(c: Ctx) {
    && Valid(c) && StackFine(c.prog) && (forall k :: 0 <= k < |c.parens| ==> StackFine(c.parens[k]))
    && Plain(c.parens[0].code) && (c.inClass ==> !c.afterGroup)
    && (if c.afterGroup then c.operand == (c.buf, 0) else Plain(c.parens[c.buf].code))
  }

  lemma PlainOk(code: seq<Inst>)
    requires Plain(code)
    ensures CodeOk(code)
  {
  }

  lemma FineAppend(s: Stack, code: seq<Inst>)
    requires StackFine(s) && CodeOk(code)
    ensures StackFine(s.(code := s.code + code))
  {
    var all := s.code + code;
    forall k | 0 <= k < |all| && k != s.dangling ensures InstOk(all[k], k, |all|) {
      if k < |s.code| { assert InstOk(s.code[k], k, |s.code|); }
      else { assert InstOk(code[k - |s.code|], k - |s.code|, |code|); }
    }
  }

  lemma FineAttach(s: Stack)
    requires StackFine(s)
    ensures StackFine(Attach(s)) && CodeOk(Attach(s).code)
  {
  }

  lemma FineAlternate(s: Stack)
    requires StackFine(s)
    ensures StackFine(Alternate(s))
  {
    FineAttach(s);
    var code := Attach(s).code;
    var all := Alternate(s).code;
    forall k | 0 <= k < |all| - 1 ensures InstOk(all[k], k, |all|) {
      if k > 0 { assert all[k] == code[k - 1] && InstOk(code[k - 1], k - 1, |code|); }
    }
  }

  lemma FineTarget(c: Ctx, s: Stack)
    requires Tidy(c) && StackFine(s)
    ensures StackFine(Target(c)) && Tidy(SetTarget(c, s))
  {
  }

  lemma FineEmit(c: Ctx, code: seq<Inst>)
    requires Tidy(c) && CodeOk(code)
    ensures Tidy(Emit(c, code))
  {
    FineTarget(c, Target(c));
    FineAppend(Target(c), code);
    FineTarget(c, Target(c).(code := Target(c).code + code));
  }

  /** Whatever an operator may take apart is well-formed on both sides. */
  lemma FineOperand(c: Ctx, k: nat)
    requires Tidy(c) && k <= |Buf(c)| && (c.afterGroup ==> k == 0)
    ensures CodeOk(Buf(c)[..k]) && CodeOk(Buf(c)[k..])
  {
    var b := Buf(c);
    if c.afterGroup {
      assert b[0..] == b;
      assert StackFine(c.parens[c.buf]);
    } else {
      PlainOk(b[..k]);
      PlainOk(b[k..]);
    }
  }

  lemma FineOpCode(tok: Token, x: seq<Inst>)
    requires IsOp(tok) && CodeOk(x)
    ensures OpCode(tok, x).Ok? ==> CodeOk(OpCode(tok, x).value)
  {
    match tok
    case One => PlusOk(x);
    case Zero => StarOk(x);
    case OneZero => OptionalsOk(x, 1);
    case Rep(counts) =>
      if RepText(counts) {
        FineRep(x, RepCounts(counts));
      }
    case _ =>
  }

  lemma FineRep(x: seq<Inst>, counts: (int, int))
    requires CodeOk(x)
    ensures RepCode(x, counts).Ok? ==> CodeOk(RepCode(x, counts).value)
  {
    var (n, m) := counts;
    if n >= 0 {
      CopiesOk(x, n);
      if n > 0 {
        CopiesOk(x, n - 1);
        PlusOk(x);
        CodeOkConcat(Copies(x, n - 1), Plus(x));
      } else {
        StarOk(x);
      }
    }
    if m >= 0 {
      OptionalsOk(x, m);
      OptionalsOk(x, 1);
      if n >= 0 {
        CopiesOk(x, Min(n, m));
        OptionalsOk(x, Max(n, m) - Min(n, m));
        CodeOkConcat(Copies(x, Min(n, m)), Optionals(x, Max(n, m) - Min(n, m)));
      }
    }
  }

  lemma FineConsume(c: Ctx)
    requires Tidy(c)
    ensures Tidy(Consume(c)) && !Consume(c).afterGroup
  {
  }

  lemma FineOp(c: Ctx, tok: Token)
    requires Tidy(c) && IsOp(tok) && Op(c, tok).Ok?
    ensures Tidy(Op(c, tok).value) && !Op(c, tok).value.afterGroup
  {
    var b := Buf(c);
    var k := if b == [] then 0 else c.operand.1;
    var code := OpCode(tok, b[k..]).value;
    FineOperand(c, k);
    FineOpCode(tok, b[k..]);
    CodeOkConcat(b[..k], code);
    FineEmit(c, b[..k] + code);
    var c1 := Emit(c, b[..k] + code);
    if tok == Alt {
      FineBar(c1, c.chained || Target(c).dsize != 0);
    } else {
      FineConsume(c1);
    }
  }

  lemma FineBar(c: Ctx, chained: bool)
    requires Tidy(c)
    ensures var c2 := SetTarget(c, Alternate(Target(c))).(chained := chained);
      Tidy(Consume(c2)) && !Consume(c2).afterGroup
  {
    FineTarget(c, Target(c));
    FineAlternate(Target(c));
    FineTarget(c, Alternate(Target(c)));
    FineConsume(SetTarget(c, Alternate(Target(c))).(chained := chained));
  }

  lemma FineFlush(c: Ctx)
    requires Tidy(c)
    ensures Tidy(Flush(c)) && (Flush(c).afterGroup ==> Buf(Flush(c)) == [])
  {
    if c.afterGroup && Buf(c) != [] {
      FineOperand(c, 0);
      assert Buf(c)[0..] == Buf(c);
      FineEmit(c, Buf(c));
    }
  }

  lemma FineAdd(c: Ctx, k: nat, inst: Inst)
    requires Tidy(c) && !c.inClass && Plain([inst]) && (k == 0 || k == c.buf) && (c.afterGroup ==> Buf(c) == [])
    ensures Tidy(AddTo(c, k, inst).(afterGroup := false))
  {
    assert Plain(c.parens[k].code);
    var code := c.parens[k].code + [inst];
    assert Plain(code) by { assert [inst][0] == inst; }
    PlainOk(code);
  }

  lemma FineLiterals(c: Ctx)
    requires Tidy(c)
    ensures Tidy(FlushLiterals(c))
  {
    PlainOk(c.parens[0].code);
    FineEmit(c, c.parens[0].code);
  }

  lemma FineOpen(c: Ctx)
    requires Tidy(c) && (c.afterGroup ==> Buf(c) == [])
    ensures Tidy(OpenGroup(c))
  {
    FineLiterals(c);
  }

  lemma FineClose(c: Ctx)
    requires Tidy(c) && !c.inClass && |c.parens| > 1
    ensures Tidy(CloseGroup(c))
  {
    FineLiterals(c);
    var c1 := FlushLiterals(c);
    FineTarget(c1, Target(c1));
    FineAttach(Target(c1));
    FineTarget(c1, Attach(Target(c1)));
  }

  lemma FineForget(c: Ctx)
    requires Tidy(c) && (c.afterGroup ==> Buf(c) == [])
    ensures Tidy(c.(afterGroup := false))
  {
  }

  lemma FinePlace(c: Ctx, tok: Token)
    requires Tidy(c) && !c.inClass && (c.afterGroup ==> Buf(c) == []) && !IsOp(tok) && Place(c, tok).Ok?
    ensures Tidy(if tok == RParen then Place(c, tok).value else Place(c, tok).value.(afterGroup := false))
  {
    match tok
    case Literal(ch) => FineAdd(c, c.buf, Char(ch));
    case AnyTok => FineAdd(c, c.buf, Any);
    case Sol => FineAdd(c, c.buf, StartOfLine);
    case Eol => FineAdd(c, c.buf, EndOfLine);
    case LParen => FineOpen(c);
    case RParen => FineClose(c);
    case _ => FineForget(c);
  }

  lemma FineMain(c: Ctx, tok: Token)
    requires Tidy(c) && !c.inClass && Main(c, tok).Ok?
    ensures Tidy(if tok == RParen then Main(c, tok).value else Main(c, tok).value.(afterGroup := false))
  {
    if IsOp(tok) {
      FineOp(c, tok);
      var c1 := Op(c, tok).value;
      assert c1.(afterGroup := false) == c1;
    } else {
      FineFlush(c);
      FinePlace(Flush(c), tok);
    }
  }

  lemma FineCharc(c: Ctx, tok: Token)
    requires Tidy(c) && c.inClass && Charc(c, tok).Ok?
    ensures Tidy(Charc(c, tok).value.(afterGroup := false))
  {
    if tok == CharcClose && c.strb != "" {
      FineAdd(c.(inClass := false, negated := false), 0, if c.negated then NClass(c.strb) else Class(c.strb));
    }
  }

  /** Whatever the tokens, the lists of the compiler stay well-formed. */
  lemma FineTake(c: Ctx, tok: Token)
    requires Tidy(c) && Take(c, tok).Ok?
    ensures Tidy(Take(c, tok).value)
  {
    if c.inClass { FineCharc(c, tok); } else { FineMain(c, tok); }
  }

  lemma {:induction false} FineTakeAll(c: Ctx, toks: seq<Token>)
    requires Tidy(c) && TakeAll(c, toks).Ok?
    ensures Tidy(TakeAll(c, toks).value)
    decreases |toks|
  {
    if toks != [] {
      FineTake(c, toks[0]);
      FineTakeAll(Take(c, toks[0]).value, toks[1..]);
    }
  }

  lemma FineFinish(c: Ctx)
    requires Tidy(c) && Finish(c).Ok?
    ensures Finish(c).value.Code? && var code := Finish(c).value.code;
      |code| > 0 && code[|code| - 1] == Match && CodeOk(code[..|code| - 1])
  {
    if c.afterGroup && Buf(c) != [] {
      FineOperand(c, 0);
      assert Buf(c)[0..] == Buf(c);
      FineAppend(c.prog, Buf(c));
      var c1 := Pop(c).(prog := c.prog.(code := c.prog.code + Buf(c)));
      FineEnd(c1.prog, c1.parens[0].code);
    } else {
      FineEnd(c.prog, c.parens[0].code);
    }
  }

  lemma FineEnd(prog: Stack, literals: seq<Inst>)
    requires StackFine(prog) && Plain(literals)
    ensures CodeOk(Attach(prog.(code := prog.code + literals)).code)
  {
    PlainOk(literals);
    FineAppend(prog, literals);
    FineAttach(prog.(code := prog.code + literals));
  }

  /** Whatever the pattern: if stage 1 accepts it and compiles it, the list for stage 2 ends in
      the only Match, all its targets are inside, jumps and the second ways of branches go
      strictly forward, and no class is empty. */
  lemma CompiledOk(text: string)
    ensures Stage1(text).Ok? && Stage1(text).value.Code? ==>
      var code := Stage1(text).value.code;
      |code| > 0 && code[|code| - 1] == Match && CodeOk(code[..|code| - 1])
  {
    LastToken(text, 0, false);
    var toks := LexAll(text, 0, false);
    var body := toks[..|toks| - 1];
    if Stage1(text).Ok? && Stage1(text).value.Code? {
      FineTakeAll(INITIAL, body);
      FineFinish(TakeAll(INITIAL, body).value);
    }
  }
}
