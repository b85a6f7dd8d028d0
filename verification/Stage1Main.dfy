/** stage1 itself: the loop over the tokens, and the shortcut for leading literals. */
module Stage1Main {
  import opened Regex
  import opened Program
  import opened Lexer
  import opened Context
  import opened Stage1

  // ----- the leading literals -----

  /** toks are the literal tokens that start at the given places, one after the other. */
  ghost predicate LiteralRun(text: string, starts: seq<int>, toks: seq<Token>) {
    && |starts| == |toks| + 1 && starts[0] == 0 && AllLiterals(toks)
    && (forall k :: 0 <= k < |starts| ==> 0 <= starts[k] <= |text|)
    && (forall k :: 0 <= k < |toks| ==> LexAt(text, starts[k], false) == Lexed(toks[k], starts[k + 1], false))
  }

  /** A literal outside brackets: itself, or a backslash and itself. */
  lemma LiteralText(text: string, p: int)
    requires 0 <= p <= |text| && LexAt(text, p, false).tok.Literal?
    ensures p < |text|
    ensures var q := if text[p] == '\\' then p + 1 else p;
      q < |text| && LexAt(text, p, false) == Lexed(Literal(text[q]), q + 1, false)
  {
  }

  lemma {:induction false} StartsIncrease(text: string, starts: seq<int>, toks: seq<Token>, j: nat, k: nat)
    requires LiteralRun(text, starts, toks) && j <= k <= |toks|
    ensures starts[j] + (k - j) <= starts[k]
    decreases k - j
  {
    if j < k {
      assert toks[j].Literal? && LexAt(text, starts[j], false) == Lexed(toks[j], starts[j + 1], false);
      LiteralText(text, starts[j]);
      StartsIncrease(text, starts, toks, j + 1, k);
    }
  }

  lemma SeenMore(seen: seq<Token>, c: Ctx, tok: Token)
    requires Valid(c) && TakeAll(INITIAL, seen) == Ok(c)
    ensures TakeAll(INITIAL, seen + [tok]) == Take(c, tok)
  {
    TakeThen(INITIAL, seen, c, [tok]);
    TakeOne(c, tok);
  }

  lemma TakeLiteral(c: Ctx, ch: char)
    requires Valid(c) && c.buf == 0 && !c.afterGroup && !c.inClass
    ensures Take(c, Literal(ch)) == Ok(AddTo(c, 0, Char(ch)))
  {
  }

  /** The character of the token that starts at p. */
  function Escaped(text: string, p: int): int
    requires 0 <= p < |text|
  {
    if text[p] == '\\' then p + 1 else p
  }

  /** Taking one more literal token adds its character to the buffer. */
  lemma BacklogStep(text: string, starts: seq<int>, toks: seq<Token>, k: nat, c: Ctx)
    requires LiteralRun(text, starts, toks) && k < |toks|
    requires Valid(c) && TakeAll(INITIAL, toks[..k]) == Ok(c) && c.buf == 0 && !c.afterGroup && !c.inClass
    ensures starts[k] < |text| && Escaped(text, starts[k]) < |text|
    ensures starts[k + 1] == Escaped(text, starts[k]) + 1
    ensures TakeAll(INITIAL, toks[..k + 1]) == Ok(AddTo(c, 0, Char(text[Escaped(text, starts[k])])))
  {
    assert toks[k].Literal? && LexAt(text, starts[k], false) == Lexed(toks[k], starts[k + 1], false);
    LiteralText(text, starts[k]);
    assert toks[..k + 1] == toks[..k] + [toks[k]];
    SeenMore(toks[..k], c, toks[k]);
    TakeLiteral(c, text[Escaped(text, starts[k])]);
  }

  /** compile_simple_backlog: the literals read before the first other token are taken from the
      text of the pattern. */
  method CompileSimpleBacklog(ctx: Compiler, text: string, simple: nat, ghost starts: seq<int>, ghost toks: seq<Token>)
    requires ctx.Now() == INITIAL && LiteralRun(text, starts, toks) && starts[|toks|] == simple
    modifies ctx
    ensures TakeAll(INITIAL, toks) == Ok(ctx.Now())
  {
    var orig := 0;
    ghost var k := 0;
    while orig != simple
      invariant 0 <= k <= |toks| && orig == starts[k]
      invariant Valid(ctx.Now()) && TakeAll(INITIAL, toks[..k]) == Ok(ctx.Now())
      invariant ctx.Now().buf == 0 && !ctx.Now().afterGroup && !ctx.Now().inClass
      decreases |toks| - k
    {
      assert k < |toks|;
      BacklogStep(text, starts, toks, k, ctx.Now());
      if text[orig] == '\\' {
        orig := orig + 1;
      }
      ctx.AddOperand(0, Char(text[orig]));
      orig := orig + 1;
      k := k + 1;
    }
    StartsIncrease(text, starts, toks, k, |toks|);
    assert toks[..k] == toks;
  }

  // ----- the tokens after them -----

  /** What is left to lex: nothing after the last token. */
  ghost function Rest(scanner: Scanner, tok: Token): seq<Token>
    requires scanner.Valid()
    reads scanner
  {
    if tok == Token.End || tok.Fail? then [] else LexAll(scanner.text, scanner.pos, scanner.literal)
  }

  method NextToken(scanner: Scanner) returns (tok: Token)
    requires scanner.Valid()
    modifies scanner
    ensures scanner.Valid() && TokenOk(tok)
    ensures [tok] + Rest(scanner, tok) == old(LexAll(scanner.text, scanner.pos, scanner.literal))
    ensures var r := LexAt(scanner.text, old(scanner.pos), old(scanner.literal));
            tok == r.tok && (tok.Fail? || (scanner.pos == r.next && scanner.literal == r.literal))
  {
    LexAtOk(scanner.text, scanner.pos, scanner.literal);
    tok := scanner.Lex();
  }

  /** seen has been taken, tok is in hand, rest is still to come. */
  ghost predicate Midway(all: seq<Token>, seen: seq<Token>, tok: Token, rest: seq<Token>, c: Ctx) {
    && TokenOk(tok) && all == seen + [tok] + rest && TakeAll(INITIAL, seen) == Ok(c)
    && (if tok == Token.End || tok.Fail? then rest == []
        else |rest| > 0 && (rest[|rest| - 1] == Token.End || rest[|rest| - 1].Fail?))
  }

  /** r and c are what the tokens before the last one give. */
  ghost predicate Taken(all: seq<Token>, r: Result<()>, c: Ctx) {
    && |all| > 0
    && match TakeAll(INITIAL, all[..|all| - 1])
       case Err(e) => r == Err(e)
       case Ok(c') => if all[|all| - 1].Fail? then r == Err(all[|all| - 1].error) else r == Ok(()) && c' == c
  }

  lemma MidwayEnds(all: seq<Token>, seen: seq<Token>, tok: Token, c: Ctx)
    requires Midway(all, seen, tok, [], c)
    ensures Taken(all, if tok.Fail? then Err(tok.error) else Ok(()), c)
  {
    assert all[..|all| - 1] == seen && all[|all| - 1] == tok;
  }

  lemma MidwayFails(all: seq<Token>, seen: seq<Token>, tok: Token, rest: seq<Token>, c: Ctx, e: Error, c': Ctx)
    requires Midway(all, seen, tok, rest, c) && rest != [] && TakeAll(INITIAL, seen + [tok]) == Err(e)
    ensures Taken(all, Err(e), c')
  {
    TakeFails(INITIAL, seen + [tok], rest[..|rest| - 1]);
    assert all[..|all| - 1] == (seen + [tok]) + rest[..|rest| - 1];
  }

  lemma MidwayOn(all: seq<Token>, seen: seq<Token>, tok: Token, rest: seq<Token>, c: Ctx, c': Ctx,
                 tok': Token, rest': seq<Token>)
    requires Midway(all, seen, tok, rest, c) && TakeAll(INITIAL, seen + [tok]) == Ok(c')
    requires rest == [tok'] + rest' && TokenOk(tok')
    requires (tok' == Token.End || tok'.Fail?) <==> rest' == []
    ensures Midway(all, seen + [tok], tok', rest', c')
  {
    assert all == (seen + [tok]) + [tok'] + rest';
    if rest' != [] { assert rest'[|rest'| - 1] == rest[|rest| - 1]; }
  }

  lemma RestShape(scanner: Scanner, tok: Token)
    requires scanner.Valid()
    ensures (tok == Token.End || tok.Fail?) <==> Rest(scanner, tok) == []
    ensures var rest := Rest(scanner, tok);
      rest != [] ==> rest[|rest| - 1] == Token.End || rest[|rest| - 1].Fail?
  {
    if tok != Token.End && !tok.Fail? { LastToken(scanner.text, scanner.pos, scanner.literal); }
  }

  /** The loop of stage1 from the first token that is not a leading literal on. */
  method TakeTokens(ctx: Compiler, scanner: Scanner, first: Token, ghost before: seq<Token>, ghost all: seq<Token>)
    returns (r: Result<()>)
    requires scanner.Valid() && first != Token.End
    requires Midway(all, before, first, Rest(scanner, first), ctx.Now())
    modifies ctx, scanner
    ensures Taken(all, r, ctx.Now())
  {
    var tok := first;
    ghost var seen := before;
    while tok != Token.End
      invariant scanner.Valid() && Midway(all, seen, tok, Rest(scanner, tok), ctx.Now())
      decreases |all| - |seen|
    {
      if tok.Fail? {
        MidwayEnds(all, seen, tok, ctx.Now());
        return Err(tok.error);
      }
      ghost var rest, was := Rest(scanner, tok), ctx.Now();
      SeenMore(seen, was, tok);
      r := ctx.HandleToken(tok);
      if r.Err? {
        MidwayFails(all, seen, tok, rest, was, r.error, ctx.Now());
        return;
      }
      var tok' := NextToken(scanner);
      RestShape(scanner, tok');
      MidwayOn(all, seen, tok, rest, was, ctx.Now(), tok', Rest(scanner, tok'));
      seen := seen + [tok];
      tok := tok';
    }
    MidwayEnds(all, seen, tok, ctx.Now());
    r := Ok(());
  }

  lemma RunOn(text: string, starts: seq<int>, toks: seq<Token>, tok: Token, next: int)
    requires LiteralRun(text, starts, toks) && tok.Literal? && 0 <= next <= |text|
    requires LexAt(text, starts[|toks|], false) == Lexed(tok, next, false)
    ensures LiteralRun(text, starts + [next], toks + [tok])
  {
  }

  lemma OneMore(seen: seq<Token>, before: seq<Token>, tok: Token, rest: seq<Token>)
    requires before == [tok] + rest
    ensures seen + before == seen + [tok] + rest
  {
  }

  /** The loop over the leading literals. */
  method LeadingLiterals(scanner: Scanner)
    returns (simple: nat, tok: Token, ghost starts: seq<int>, ghost toks: seq<Token>)
    requires scanner.Valid() && scanner.pos == 0 && !scanner.literal
    modifies scanner
    ensures scanner.Valid() && TokenOk(tok) && !tok.Literal?
    ensures LiteralRun(scanner.text, starts, toks) && starts[|toks|] == simple
    ensures LexAll(scanner.text, 0, false) == toks + [tok] + Rest(scanner, tok)
  {
    var text := scanner.text;
    starts, toks := [0], [];
    simple := 0;
    tok := NextToken(scanner);
    while tok.Literal?
      invariant scanner.Valid() && TokenOk(tok)
      invariant LiteralRun(text, starts, toks) && starts[|toks|] == simple
      invariant tok.Literal? ==> LexAt(text, simple, false) == Lexed(tok, scanner.pos, scanner.literal)
      invariant LexAll(text, 0, false) == toks + [tok] + Rest(scanner, tok)
      decreases |text| - simple
    {
      LiteralText(text, simple);
      RunOn(text, starts, toks, tok, scanner.pos);
      ghost var seen, before := toks + [tok], Rest(scanner, tok);
      simple := scanner.pos;
      starts, toks := starts + [simple], seen;
      tok := NextToken(scanner);
      OneMore(seen, before, tok, Rest(scanner, tok));
    }
  }

  lemma NotAllLiterals(all: seq<Token>, toks: seq<Token>, tok: Token, rest: seq<Token>)
    requires all == toks + [tok] + rest && !tok.Literal? && (rest == [] ==> tok != Token.End)
    ensures all[|all| - 1] != Token.End || !AllLiterals(all[..|all| - 1])
  {
    if rest != [] { assert all[..|all| - 1][|toks|] == tok; }
  }

  /** stage1: literals alone are kept as text; anything else is compiled. */
  method Compile(text: string) returns (r: Result<Compiled>)
    ensures r == Context.Stage1(text)
  {
    var ctx := new Compiler();
    var scanner := new Scanner(text);
    ghost var all := LexAll(text, 0, false);
    var simple, tok;
    ghost var starts, toks;
    simple, tok, starts, toks := LeadingLiterals(scanner);
    RestShape(scanner, tok);
    if tok == Token.End {
      assert all[..|all| - 1] == toks;
      return Ok(Literals(text));
    }
    CompileSimpleBacklog(ctx, text, simple, starts, toks);
    NotAllLiterals(all, toks, tok, Rest(scanner, tok));
    assert Midway(all, toks, tok, Rest(scanner, tok), ctx.Now());
    var done := TakeTokens(ctx, scanner, tok, toks, all);
    if done.Err? {
      return Err(done.error);
    }
    r := ctx.End();
  }
}
