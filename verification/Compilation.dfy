/** One pass over the tokens of a sentence gives the code of its tree: the shared literal
    buffer, the stack of groups and the waiting jumps all work out. */
module Compilation {
  import opened Regex
  import opened Program
  import opened CodeGen
  import opened Lexer
  import opened Sentences
  import opened Context

  // ----- counts -----

  /** No quantifier of the tree allows zero repetitions only. */
  predicate ElemCounts(e: Elem)
    requires ElemWritten(e)
  {
    e.Group? ==> ReCounts(e.re)
  }

  predicate BasicCounts(b: Basic)
    requires BasicWritten(b)
  {
    ElemCounts(b.elem) && !OnlyZero(b.quant)
  }

  predicate CatCounts(c: Cat)
    requires CatWritten(c)
  {
    c.Then? ==> CatCounts(c.init) && BasicCounts(c.last)
  }

  predicate ReCounts(re: Re)
    requires ReWritten(re)
  {
    match re
    case Simple(c) => CatCounts(c)
    case Union(l, r) => ReCounts(l) && CatCounts(r)
  }

  lemma {:induction false} CommaAfter(d: string, rest: string)
    requires Digits(d)
    ensures CommaAt(d + rest) == |d| + CommaAt(rest)
  {
    if d == "" {
      assert d + rest == rest;
    } else {
      assert (d + rest)[1..] == d[1..] + rest && (d + rest)[0] == d[0];
      CommaAfter(d[1..], rest);
    }
  }

  lemma TwoDigitsChars(n: string, m: string, k: int)
    requires Digits(n) && Digits(m) && 0 <= k < |n + "," + m|
    ensures if k == |n| then (n + "," + m)[k] == ',' else IsDigit((n + "," + m)[k])
  {
    if k > |n| { assert (n + "," + m)[k] == m[k - |n| - 1]; }
  }

  lemma TwoDigitsRepText(n: string, m: string)
    requires Digits(n) && Digits(m) && (n != "" || m != "")
    ensures RepText(n + "," + m)
  {
    var s := n + "," + m;
    forall k | 0 <= k < |s| ensures if k == |n| then s[k] == ',' else IsDigit(s[k]) {
      TwoDigitsChars(n, m, k);
    }
    assert IsDigit(s[if n != "" then 0 else 1]);
  }

  /** Two counts with a comma between them. */
  lemma TwoDigitsText(n: string, m: string)
    requires Digits(n) && Digits(m) && (n != "" || m != "")
    ensures RepText(n + "," + m) && RepCounts(n + "," + m) == (Field(n, FIELD_EMPTY), Field(m, FIELD_EMPTY))
  {
    var s := n + "," + m;
    TwoDigitsRepText(n, m);
    assert s == n + ("," + m);
    CommaAfter(n, "," + m);
    assert s[..|n|] == n && s[|n| + 1..] == m;
  }

  /** One count and nothing more. */
  lemma OneDigitsText(n: string)
    requires Digits(n) && n != ""
    ensures RepText(n) && RepCounts(n) == (Number(n), NO_FIELD)
  {
    CommaAfter(n, "");
    assert n + "" == n;
    assert IsDigit(n[0]);
  }

  /** The two counts as the compiler is to read them. */
  function QuantCounts(q: Quant): (int, int)
    requires QuantWritten(q)
  {
    match q
    case Exactly(n) => (Number(n), NO_FIELD)
    case AtLeast(n) => (Number(n), FIELD_EMPTY)
    case AtMost(m) => (FIELD_EMPTY, Number(m))
    case Between(n, m) => (Number(n), Number(m))
    case _ => (NO_FIELD, NO_FIELD)
  }

  /** The counts of a written repetition are read back. */
  lemma WrittenCounts(q: Quant)
    requires QuantWritten(q) && (q.Exactly? || q.AtLeast? || q.AtMost? || q.Between?)
    ensures RepText(PrintCounts(q))
    ensures RepCounts(PrintCounts(q)) == QuantCounts(q)
  {
    match q
    case Exactly(n) =>
      OneDigitsText(n);
    case AtLeast(n) =>
      TwoDigitsText(n, "");
      assert n + "," + "" == n + ",";
    case AtMost(m) =>
      TwoDigitsText("", m);
      assert "" + "," + m == "," + m;
    case Between(n, m) =>
      TwoDigitsText(n, m);
  }

  lemma NoneExtra(x: seq<Inst>, n: nat, extra: nat)
    ensures Copies(x, n) + Optionals(x, 0) == Copies(x, n)
    ensures Copies(x, 0) + Optionals(x, extra) == Optionals(x, extra)
  {
  }

  lemma BetweenCode(x: seq<Inst>, n: nat, m: nat)
    ensures RepCode(x, (n, m)) ==
      if n == 0 && m == 0 then Err(BadOp) else Ok(Copies(x, Min(n, m)) + Optionals(x, Max(n, m) - Min(n, m)))
  {
    if n == m {
      NoneExtra(x, n, 0);
    } else if n + m == 1 {
      NoneExtra(x, 0, 1);
    }
  }

  /** Between each pair of counts and the code for it stand the same numbers. */
  lemma CountsCode(q: Quant, x: seq<Inst>)
    requires QuantWritten(q) && (q.Exactly? || q.AtLeast? || q.AtMost? || q.Between?)
    ensures RepCode(x, QuantCounts(q)) == if OnlyZero(q) then Err(BadOp) else Ok(QuantCode(x, q))
  {
    if q.Between? {
      BetweenCode(x, Number(q.n), Number(q.m));
    }
  }

  lemma RepToken(q: Quant, x: seq<Inst>)
    requires QuantWritten(q) && (q.Exactly? || q.AtLeast? || q.AtMost? || q.Between?)
    ensures RepText(PrintCounts(q))
    ensures RepCode(x, RepCounts(PrintCounts(q))) == if OnlyZero(q) then Err(BadOp) else Ok(QuantCode(x, q))
  {
    WrittenCounts(q);
    CountsCode(q, x);
  }

  /** The quantifier is one token, whose code for the operand x is the quantifier's; or it is refused,
      when it allows no repetition at all. */
  predicate OneToken(q: Quant, x: seq<Inst>)
    requires QuantWritten(q)
  {
    && |QuantTokens(q)| == 1
    && var tok := QuantTokens(q)[0];
       && IsOp(tok) && tok != Alt
       && OpCode(tok, x) == if OnlyZero(q) then Err(BadOp) else Ok(QuantCode(x, q))
  }

  lemma MarkToken(q: Quant, x: seq<Inst>)
    requires q == ZeroOrMore || q == OneOrMore || q == ZeroOrOne
    ensures OneToken(q, x)
  {
  }

  lemma CountsToken(q: Quant, x: seq<Inst>, tok: Token)
    requires QuantWritten(q) && (q.Exactly? || q.AtLeast? || q.AtMost? || q.Between?) && tok == Rep(PrintCounts(q))
    ensures OneToken(q, x)
  {
    RepToken(q, x);
    assert QuantTokens(q) == [tok] && IsOp(tok) && OpCode(tok, x) == RepCode(x, RepCounts(tok.counts));
  }

  lemma QuantToken(q: Quant, x: seq<Inst>)
    requires QuantWritten(q) && q != Once
    ensures OneToken(q, x)
  {
    if q.Exactly? || q.AtLeast? || q.AtMost? || q.Between? {
      CountsToken(q, x, Rep(PrintCounts(q)));
    } else {
      MarkToken(q, x);
    }
  }

  // ----- chains -----

  /** Somewhere in the tree a second bar follows a first one in the same group: the jump over the
      one alternative leads to the jump over the next. */
  predicate ElemChains(e: Elem) { e.Group? && ReChains(e.re) }

  predicate CatChains(c: Cat) { c.Then? && (CatChains(c.init) || ElemChains(c.last.elem)) }

  predicate ReChains(re: Re) {
    match re
    case Simple(c) => CatChains(c)
    case Union(l, r) => l.Union? || ReChains(l) || CatChains(r)
  }

  // ----- the state between two elements -----

  /** Outside brackets; after a closing parenthesis the group is waiting, otherwise the shared
      buffer holds the literals not yet emitted. The operand is the last element seen. */
  ghost predicate Calm(c: Ctx) {
    && Valid(c) && !c.inClass && !c.negated
    && (if c.afterGroup then Buf(c) != [] && c.parens[0].code == [] && c.target == |c.parens| - 2
        else c.buf == 0 && c.target == |c.parens| - 1)
    && (Buf(c) != [] ==> c.operand.0 == c.buf && c.operand.1 < |Buf(c)|)
  }

  /** The same state with everything that is waiting emitted. */
  ghost function Flat(c: Ctx): (r: Ctx)
    requires Calm(c)
    ensures Calm(r) && Buf(r) == [] && !r.afterGroup
  {
    (if c.afterGroup then Pop(Emit(c, Buf(c))) else FlushLiterals(c)).(operand := (0, 0), chained := false, strb := "")
  }

  /** The operand an operator would take is x. */
  ghost predicate Operand(c: Ctx, x: seq<Inst>)
    requires Calm(c)
  {
    Buf(c) != [] && Buf(c)[c.operand.1..] == x
  }

  lemma FlatFlush(c: Ctx)
    requires Calm(c)
    ensures Calm(Flush(c)) && !Flush(c).afterGroup && Flat(Flush(c)) == Flat(c)
  {
    if c.afterGroup {
      EmitNone(Flush(c));
    }
  }

  /** A token that stands for one instruction. */
  lemma SingleStep(c: Ctx, tok: Token, inst: Inst) returns (c': Ctx)
    requires Calm(c)
    requires match tok
             case Literal(ch) => inst == Char(ch)
             case AnyTok => inst == Any
             case Sol => inst == StartOfLine
             case Eol => inst == EndOfLine
             case _ => false
    ensures Take(c, tok) == Ok(c') && Calm(c') && Operand(c', [inst])
    ensures Flat(c') == Emit(Flat(c), [inst]) && c'.chained == c.chained
  {
    FlatFlush(c);
    c' := AddTo(Flush(c), 0, inst);
    AddedFlat(Flush(c), inst, c');
    SingleTakes(c, tok, inst, c');
  }

  lemma SingleTakes(c: Ctx, tok: Token, inst: Inst, c': Ctx)
    requires Calm(c) && Calm(Flush(c)) && !Flush(c).afterGroup && c' == AddTo(Flush(c), 0, inst)
    requires match tok
             case Literal(ch) => inst == Char(ch)
             case AnyTok => inst == Any
             case Sol => inst == StartOfLine
             case Eol => inst == EndOfLine
             case _ => false
    ensures Take(c, tok) == Ok(c')
  {
  }

  lemma AddedFlat(c: Ctx, inst: Inst, c': Ctx)
    requires Calm(c) && !c.afterGroup && c' == AddTo(c, 0, inst)
    ensures Calm(c') && Operand(c', [inst]) && Flat(c') == Emit(Flat(c), [inst])
  {
    assert c.target > 0 ==> c'.parens[c.target] == c.parens[c.target];
    assert Target(c).code + (c.parens[0].code + [inst]) == Target(c).code + c.parens[0].code + [inst];
    assert Flat(c').parens == Emit(Flat(c), [inst]).parens;
  }

  lemma OpTakes(c: Ctx, tok: Token, x: seq<Inst>, code: seq<Inst>)
    requires Calm(c) && Operand(c, x) && IsOp(tok) && tok != Alt && OpCode(tok, x) == Ok(code)
    ensures Take(c, tok) == Ok(Consume(Emit(c, Buf(c)[..c.operand.1] + code)))
  {
  }

  /** What is in front of the operand. */
  lemma BeforeOperand(c: Ctx, f: Ctx, x: seq<Inst>, code: seq<Inst>)
    requires Calm(c) && Operand(c, x) && Valid(f) && Flat(c) == Emit(f, x)
    ensures Target(Emit(c, Buf(c)[..c.operand.1] + code)) == Target(Emit(f, code))
  {
    var b, t := Buf(c), Target(c).code;
    assert b == b[..c.operand.1] + x;
    assert t + b == (t + b[..c.operand.1]) + x;
    assert Target(Flat(c)).code == t + b;
    CancelRight(t + b[..c.operand.1], Target(f).code, x);
    assert t + (b[..c.operand.1] + code) == Target(f).code + code;
  }

  lemma ConsumedPops(c: Ctx, s: Stack, chained: bool, n: int)
    requires Calm(c) && c.afterGroup && StackOk(s) && n == |c.parens| - 1
    ensures var c1 := SetTarget(c, s).(chained := chained);
      Consume(c1) == c1.(parens := c1.parens[..n], buf := 0, afterGroup := false)
  {
    var c1 := SetTarget(c, s).(chained := chained);
    assert SetList(c1, c1.buf, []).parens[..n] == c1.parens[..n];
  }

  lemma ConsumedGroup(c: Ctx, s: Stack, chained: bool, c': Ctx)
    requires Calm(c) && c.afterGroup && StackOk(s) && c' == Consume(SetTarget(c, s).(chained := chained))
    ensures Calm(c') && Flat(c') == SetTarget(Flat(c), s)
  {
    ConsumedPops(c, s, chained, |c.parens| - 1);
    EmitNone(c');
    assert c'.parens[0].code == [] && FlushLiterals(c').parens == c'.parens;
    assert Flat(c').parens == SetTarget(Flat(c), s).parens;
  }

  lemma ConsumedLiterals(c: Ctx, s: Stack, chained: bool, c': Ctx)
    requires Calm(c) && !c.afterGroup && StackOk(s) && c' == Consume(SetTarget(c, s).(chained := chained))
    ensures Calm(c') && Flat(c') == SetTarget(Flat(c), s)
  {
    assert s.code + [] == s.code;
    assert Flat(c').parens == SetTarget(Flat(c), s).parens;
  }

  /** The code s has become the target, and the buffer is used up. */
  lemma ConsumedFlat(c: Ctx, s: Stack, chained: bool, c': Ctx)
    requires Calm(c) && StackOk(s) && c' == Consume(SetTarget(c, s).(chained := chained))
    ensures Calm(c') && Flat(c') == SetTarget(Flat(c), s)
  {
    if c.afterGroup { ConsumedGroup(c, s, chained, c'); } else { ConsumedLiterals(c, s, chained, c'); }
  }

  /** An operator replaces its operand by the operator's code. */
  lemma OpStep(c: Ctx, tok: Token, f: Ctx, x: seq<Inst>, code: seq<Inst>) returns (c': Ctx)
    requires Calm(c) && Operand(c, x) && Valid(f) && Flat(c) == Emit(f, x)
    requires IsOp(tok) && tok != Alt && OpCode(tok, x) == Ok(code)
    ensures Take(c, tok) == Ok(c') && Calm(c') && Flat(c') == Emit(f, code) && c'.chained == c.chained
  {
    OpTakes(c, tok, x, code);
    BeforeOperand(c, f, x, code);
    var before := Buf(c)[..c.operand.1];
    c' := Consume(Emit(c, before + code));
    EmitConsumed(c, before + code, c');
    SetSet(f, Target(Emit(f, x)), Target(Emit(f, code)));
  }

  lemma EmitConsumed(c: Ctx, code: seq<Inst>, c': Ctx)
    requires Calm(c) && c' == Consume(Emit(c, code))
    ensures Calm(c') && Flat(c') == SetTarget(Flat(c), Target(Emit(c, code)))
  {
    var s := Target(c).(code := Target(c).code + code);
    assert Emit(c, code) == SetTarget(c, s).(chained := c.chained);
    ConsumedFlat(c, s, c.chained, c');
  }

  lemma CancelRight(a: seq<Inst>, b: seq<Inst>, x: seq<Inst>)
    requires a + x == b + x
    ensures a == b
  {
    assert a == (a + x)[..|a|] && b == (b + x)[..|b|];
  }

  /** The alternation bar turns the code emitted so far into the left side. */
  lemma AltStep(c: Ctx) returns (c': Ctx)
    requires Calm(c)
    ensures Take(c, Alt) == Ok(c') && Calm(c')
    ensures Flat(c') == SetTarget(Flat(c), Alternate(Target(Flat(c))))
    ensures c'.chained == (c.chained || Target(Flat(c)).dsize != 0)
  {
    var c1 := Emit(c, Buf(c));
    var alt := Alternate(Target(c1));
    c' := AltTakes(c);
    SetSet(c, Target(c1), alt);
    assert Target(Flat(c)) == Target(c1);
    ConsumedFlat(c, alt, c.chained || Target(c).dsize != 0, c');
  }

  lemma AltOp(c: Ctx, b: seq<Inst>)
    requires Calm(c) && b == Buf(c)
    ensures var c1 := Emit(c, b);
      Op(c, Alt) == Ok(Consume(SetTarget(c1, Alternate(Target(c1))).(chained := c.chained || Target(c).dsize != 0)))
  {
    var k := if b == [] then 0 else c.operand.1;
    assert b[..k] + b[k..] == b;
  }

  lemma NotAfter(c: Ctx)
    requires Valid(c)
    ensures Consume(c).(afterGroup := false) == Consume(c)
  {
  }

  lemma AltTakes(c: Ctx) returns (c': Ctx)
    requires Calm(c)
    ensures Take(c, Alt) == Ok(c')
    ensures var c1 := Emit(c, Buf(c));
      c' == Consume(SetTarget(c1, Alternate(Target(c1))).(chained := c.chained || Target(c).dsize != 0))
  {
    var c1 := Emit(c, Buf(c));
    AltOp(c, Buf(c));
    NotAfter(SetTarget(c1, Alternate(Target(c1))).(chained := c.chained || Target(c).dsize != 0));
    c' := Op(c, Alt).value;
  }

  /** The state with a new, empty group on top. */
  ghost function Opened(f: Ctx): (r: Ctx)
    requires Valid(f) && !f.afterGroup
    ensures Valid(r) && Target(r) == EMPTY_STACK
  {
    f.(parens := f.parens + [EMPTY_STACK], target := |f.parens|)
  }

  lemma OpenStep(c: Ctx) returns (c': Ctx)
    requires Calm(c)
    ensures Take(c, LParen) == Ok(c') && Calm(c') && Flat(c') == Opened(Flat(c))
    ensures c'.chained == c.chained
  {
    FlatFlush(c);
    c' := OpenGroup(Flush(c));
    assert Take(c, LParen) == Ok(c');
    assert Flat(c').parens == Opened(Flat(c)).parens;
  }

  /** A group is closed when everything in it has been emitted into s. */
  lemma ClosedFlat(c1: Ctx, f: Ctx, s: Stack, c': Ctx)
    requires Calm(c1) && !c1.afterGroup && Calm(f) && Buf(f) == [] && !f.afterGroup && Flat(f) == f
    requires StackOk(s) && Flat(c1) == SetTarget(Opened(f), s) && Attach(s).code != []
    requires |c1.parens| > 1 && c' == CloseGroup(c1)
    ensures Calm(c') && Operand(c', Attach(s).code) && Flat(c') == Emit(f, Attach(s).code)
  {
    var top := |f.parens|;
    assert FlushLiterals(c1).parens == f.parens + [s];
    assert c'.parens == f.parens + [Attach(s)] && c'.parens[..top] == f.parens;
    assert Flat(c').parens == Emit(f, Attach(s).code).parens;
  }

  /** Closing a group: its jump is attached, and the whole group is the operand. */
  lemma CloseStep(c: Ctx, f: Ctx, s: Stack) returns (c': Ctx)
    requires Calm(c) && Calm(f) && Buf(f) == [] && !f.afterGroup && Flat(f) == f
    requires StackOk(s) && Flat(c) == SetTarget(Opened(f), s) && Attach(s).code != []
    ensures Take(c, RParen) == Ok(c') && Calm(c')
    ensures Operand(c', Attach(s).code) && Flat(c') == Emit(f, Attach(s).code) && c'.chained == c.chained
  {
    FlatFlush(c);
    var c1 := Flush(c);
    assert |Flat(c1).parens| == |c1.parens|;
    c' := CloseGroup(c1);
    ClosedFlat(c1, f, s, c');
  }

  // ----- between brackets -----

  lemma ItemStep(c: Ctx, item: Item)
    requires Valid(c) && c.inClass && !c.afterGroup && ItemWritten(c.negated, item)
    ensures Take(c, ItemToken(item)) == Ok(c.(strb := c.strb + ItemMembers(item)))
  {
  }

  lemma ItemsCons(c: Ctx, items: seq<Item>, c1: Ctx, r: Result<Ctx>)
    requires Valid(c) && items != [] && Take(c, ItemToken(items[0])) == Ok(c1)
    requires TakeAll(c1, ItemTokens(items[1..])) == r
    ensures TakeAll(c, ItemTokens(items)) == r
  {
    TakeCons(c, ItemToken(items[0]), c1, ItemTokens(items[1..]));
  }

  lemma MembersCons(strb: string, items: seq<Item>)
    requires items != []
    ensures strb + ItemMembers(items[0]) + Members(items[1..]) == strb + Members(items)
  {
  }

  lemma {:induction false} ItemSteps(c: Ctx, items: seq<Item>)
    requires Valid(c) && c.inClass && !c.afterGroup && ItemsWritten(c.negated, items)
    ensures TakeAll(c, ItemTokens(items)) == Ok(c.(strb := c.strb + Members(items)))
    decreases |items|
  {
    if items == [] {
      assert c.strb + "" == c.strb;
    } else {
      assert ItemWritten(c.negated, items[0]);
      var c1 := c.(strb := c.strb + ItemMembers(items[0]));
      ItemStep(c, items[0]);
      ItemSteps(c1, items[1..]);
      MembersCons(c.strb, items);
      ItemsCons(c, items, c1, Ok(c.(strb := c.strb + Members(items))));
    }
  }

  ghost function SetInst(negated: bool, items: seq<Item>): Inst {
    if negated then NClass(Members(items)) else Class(Members(items))
  }

  /** The opening bracket and the hat. */
  lemma SetOpens(c: Ctx, negated: bool)
    requires Calm(c)
    ensures TakeAll(c, [CharcOpen] + if negated then [Literal('^')] else []) ==
            Ok(Flush(c).(inClass := true, strb := "", negated := negated))
  {
    FlatFlush(c);
    var c1 := Flush(c).(inClass := true, strb := "");
    TakeOne(c, CharcOpen);
    if negated { TakeOne(c1, Literal('^')); }
    TakeThen(c, [CharcOpen], c1, if negated then [Literal('^')] else []);
  }

  /** The closing bracket adds the class instruction. */
  lemma SetCloses(c: Ctx, c3: Ctx, inst: Inst) returns (c': Ctx)
    requires Calm(c) && !c.afterGroup && c3 == c.(inClass := true, strb := c3.strb, negated := c3.negated)
    requires c3.strb != "" && inst == if c3.negated then NClass(c3.strb) else Class(c3.strb)
    ensures TakeAll(c3, [CharcClose]) == Ok(c') && Calm(c') && Operand(c', [inst]) && Flat(c') == Emit(Flat(c), [inst])
    ensures c'.chained == c.chained
  {
    var c4 := c3.(inClass := false, negated := false);
    c' := AddTo(c4, 0, inst);
    TakeOne(c3, CharcClose);
    AddedFlat(c4, inst, c');
    assert Flat(c4) == Flat(c);
  }

  lemma SetSteps(c: Ctx, negated: bool, items: seq<Item>) returns (c': Ctx)
    requires Calm(c) && ItemsWritten(negated, items) && |items| > 0
    ensures TakeAll(c, SetTokens(negated, items)) == Ok(c') && Calm(c')
    ensures Operand(c', [SetInst(negated, items)]) && Flat(c') == Emit(Flat(c), [SetInst(negated, items)])
    ensures c'.chained == c.chained
  {
    FlatFlush(c);
    var open := [CharcOpen] + if negated then [Literal('^')] else [];
    var c2 := Flush(c).(inClass := true, strb := "", negated := negated);
    SetOpens(c, negated);
    ItemSteps(c2, items);
    var c3 := c2.(strb := Members(items));
    assert "" + Members(items) == Members(items);
    TakeThen(c, open, c2, ItemTokens(items));
    assert ItemWritten(negated, items[0]);
    ItemMembersNonempty(items[0]);
    c' := SetCloses(Flush(c), c3, SetInst(negated, items));
    TakeThen(c, open + ItemTokens(items), c3, [CharcClose]);
  }

  // ----- whole trees -----

  lemma QuantNonempty(x: seq<Inst>, q: Quant)
    requires QuantWritten(q) && !OnlyZero(q) && x != []
    ensures QuantCode(x, q) != []
  {
  }

  lemma ElemNonempty(e: Elem)
    requires ElemWritten(e) && ElemCounts(e)
    ensures ElemCode(e) != []
    decreases e
  {
    if e.Group? && e.re.Simple? {
      CatNonempty(e.re.body);
    }
  }

  lemma CatNonempty(cat: Cat)
    requires cat.Then? && CatWritten(cat) && CatCounts(cat)
    ensures CatCode(cat) != []
    decreases cat
  {
    var last := cat.last;
    assert BasicWritten(last) && BasicCounts(last);
    ElemNonempty(last.elem);
    QuantNonempty(ElemCode(last.elem), last.quant);
  }

  /** The list an alternation is built in: its last jump still waits for its target. */
  ghost function OpenStack(re: Re): (s: Stack)
    requires ReWritten(re)
    ensures StackOk(s)
  {
    match re
    case Simple(c) => Stack(CatCode(c), -1, 0)
    case Union(l, r) =>
      var left := [Branch(1, |ReCode(l)| + 2)] + ReCode(l) + [Jmp(0)];
      Stack(left + CatCode(r), |left| - 1, |left|)
  }

  lemma OpenStackCode(re: Re)
    requires ReWritten(re)
    ensures Attach(OpenStack(re)).code == ReCode(re) && |OpenStack(re).code| == |ReCode(re)|
  {
    if re.Union? {
      var s := OpenStack(re);
      assert Attach(s).code == s.code[s.dangling := Jmp(|CatCode(re.right)| + 1)];
      assert Attach(s).code == AltCode(ReCode(re.left), CatCode(re.right));
    }
  }

  lemma BasicSteps(c: Ctx, b: Basic) returns (c': Ctx)
    requires Calm(c) && BasicWritten(b)
    ensures BasicCounts(b) ==>
      && TakeAll(c, BasicTokens(b)) == Ok(c') && Calm(c') && Flat(c') == Emit(Flat(c), BasicCode(b))
      && c'.chained == (c.chained || ElemChains(b.elem))
    ensures !BasicCounts(b) ==> TakeAll(c, BasicTokens(b)) == Err(BadOp)
    decreases b, 1
  {
    var x := ElemCode(b.elem);
    c' := ElemSteps(c, b.elem);
    if !ElemCounts(b.elem) {
      TakeFails(c, ElemTokens(b.elem), QuantTokens(b.quant));
    } else if b.quant == Once {
      assert ElemTokens(b.elem) + [] == ElemTokens(b.elem);
    } else {
      QuantToken(b.quant, x);
      var tok := QuantTokens(b.quant)[0];
      TakeThen(c, ElemTokens(b.elem), c', [tok]);
      TakeOne(c', tok);
      if !OnlyZero(b.quant) {
        c' := OpStep(c', tok, Flat(c), x, QuantCode(x, b.quant));
      }
    }
  }

  lemma {:induction false} ElemSteps(c: Ctx, e: Elem) returns (c': Ctx)
    requires Calm(c) && ElemWritten(e)
    ensures ElemCounts(e) ==>
      && TakeAll(c, ElemTokens(e)) == Ok(c') && Calm(c')
      && Operand(c', ElemCode(e)) && Flat(c') == Emit(Flat(c), ElemCode(e))
      && c'.chained == (c.chained || ElemChains(e))
    ensures !ElemCounts(e) ==> TakeAll(c, ElemTokens(e)) == Err(BadOp)
    decreases e, 1
  {
    match e
    case Group(re) => c' := GroupSteps(c, re);
    case Set(negated, items) => c' := SetSteps(c, negated, items);
    case AnyChar =>
      c' := SingleStep(c, AnyTok, Any);
      TakeOne(c, AnyTok);
    case LineStart =>
      c' := SingleStep(c, Sol, StartOfLine);
      TakeOne(c, Sol);
    case LineEnd =>
      c' := SingleStep(c, Eol, EndOfLine);
      TakeOne(c, Eol);
    case Lit(ch) =>
      c' := SingleStep(c, Literal(ch.c), Char(ch.c));
      TakeOne(c, Literal(ch.c));
  }

  lemma GroupSteps(c: Ctx, re: Re) returns (c': Ctx)
    requires Calm(c) && ElemWritten(Group(re))
    ensures ReCounts(re) ==>
      && TakeAll(c, ElemTokens(Group(re))) == Ok(c') && Calm(c')
      && Operand(c', ReCode(re)) && Flat(c') == Emit(Flat(c), ReCode(re))
      && c'.chained == (c.chained || ReChains(re))
    ensures !ReCounts(re) ==> TakeAll(c, ElemTokens(Group(re))) == Err(BadOp)
    decreases Group(re), 0
  {
    var c1 := OpenStep(c);
    TakeOne(c, LParen);
    TakeThen(c, [LParen], c1, ReTokens(re));
    c' := ReSteps(c1, re);
    if !ReCounts(re) {
      TakeFails(c, [LParen] + ReTokens(re), [RParen]);
    } else {
      TakeThen(c, [LParen] + ReTokens(re), c', [RParen]);
      TakeOne(c', RParen);
      OpenStackCode(re);
      ElemNonempty(Group(re));
      FlatFlat(c);
      c' := CloseStep(c', Flat(c), OpenStack(re));
    }
  }

  lemma FlatFlat(c: Ctx)
    requires Calm(c)
    ensures Flat(Flat(c)) == Flat(c)
  {
    var f := Flat(c);
    assert Target(f).code + [] == Target(f).code;
    assert Flat(f).parens == f.parens;
  }

  lemma {:induction false} CatSteps(c: Ctx, cat: Cat) returns (c': Ctx)
    requires Calm(c) && CatWritten(cat)
    ensures CatCounts(cat) ==>
      && TakeAll(c, CatTokens(cat)) == Ok(c') && Calm(c') && Flat(c') == Emit(Flat(c), CatCode(cat))
      && c'.chained == (c.chained || CatChains(cat))
    ensures !CatCounts(cat) ==> TakeAll(c, CatTokens(cat)) == Err(BadOp)
    decreases cat, 1
  {
    match cat
    case Empty =>
      c' := c;
      EmitNone(Flat(c));
    case Then(init, last) =>
      c' := CatSteps(c, init);
      if !CatCounts(init) {
        TakeFails(c, CatTokens(init), BasicTokens(last));
      } else {
        TakeThen(c, CatTokens(init), c', BasicTokens(last));
        c' := BasicSteps(c', last);
        EmitTwice(Flat(c), CatCode(init), BasicCode(last));
      }
  }

  lemma EmitFirst(f: Ctx, code: seq<Inst>)
    requires Valid(f) && Target(f) == EMPTY_STACK
    ensures Emit(f, code) == SetTarget(f, EMPTY_STACK.(code := code))
  {
    assert [] + code == code;
  }

  lemma {:induction false} ReSteps(c: Ctx, re: Re) returns (c': Ctx)
    requires Calm(c) && ReWritten(re) && Target(Flat(c)) == EMPTY_STACK
    ensures ReCounts(re) ==>
      && TakeAll(c, ReTokens(re)) == Ok(c') && Calm(c') && Flat(c') == SetTarget(Flat(c), OpenStack(re))
      && c'.chained == (c.chained || ReChains(re))
    ensures !ReCounts(re) ==> TakeAll(c, ReTokens(re)) == Err(BadOp)
    decreases re, 1
  {
    match re
    case Simple(cat) =>
      c' := CatSteps(c, cat);
      EmitFirst(Flat(c), CatCode(cat));
      assert ReTokens(re) == CatTokens(cat) && OpenStack(re) == EMPTY_STACK.(code := CatCode(cat));
    case Union(l, r) => c' := UnionSteps(c, l, r);
  }

  /** The left side and the bar. */
  lemma LeftSteps(c: Ctx, l: Re) returns (c': Ctx)
    requires Calm(c) && ReWritten(l) && Target(Flat(c)) == EMPTY_STACK
    ensures ReCounts(l) ==>
      && TakeAll(c, ReTokens(l) + [Alt]) == Ok(c') && Calm(c')
      && Flat(c') == SetTarget(Flat(c), Alternate(OpenStack(l)))
      && c'.chained == (c.chained || ReChains(l) || l.Union?)
    ensures !ReCounts(l) ==> TakeAll(c, ReTokens(l) + [Alt]) == Err(BadOp)
    decreases l, 2
  {
    c' := c;
    var c1 := ReSteps(c, l);
    if !ReCounts(l) {
      TakeFails(c, ReTokens(l), [Alt]);
    } else {
      TakeThen(c, ReTokens(l), c1, [Alt]);
      TakeOne(c1, Alt);
      c' := AltStep(c1);
      SetSet(Flat(c), OpenStack(l), Alternate(OpenStack(l)));
    }
  }

  lemma UnionSteps(c: Ctx, l: Re, r: Cat) returns (c': Ctx)
    requires Calm(c) && ReWritten(l) && CatWritten(r) && Target(Flat(c)) == EMPTY_STACK
    ensures ReCounts(l) && CatCounts(r) ==>
      && TakeAll(c, ReTokens(Union(l, r))) == Ok(c') && Calm(c')
      && Flat(c') == SetTarget(Flat(c), OpenStack(Union(l, r)))
      && c'.chained == (c.chained || ReChains(Union(l, r)))
    ensures !(ReCounts(l) && CatCounts(r)) ==> TakeAll(c, ReTokens(Union(l, r))) == Err(BadOp)
    decreases Union(l, r), 0
  {
    c' := c;
    var c2 := LeftSteps(c, l);
    if !ReCounts(l) {
      TakeFails(c, ReTokens(l) + [Alt], CatTokens(r));
    } else {
      TakeThen(c, ReTokens(l) + [Alt], c2, CatTokens(r));
      c' := CatSteps(c2, r);
      if CatCounts(r) {
        OpenUnion(l, r);
        SetSet(Flat(c), Alternate(OpenStack(l)), OpenStack(Union(l, r)));
      }
    }
  }

  lemma OpenUnion(l: Re, r: Cat)
    requires ReWritten(l) && CatWritten(r)
    ensures var alt := Alternate(OpenStack(l));
      OpenStack(Union(l, r)) == alt.(code := alt.code + CatCode(r))
  {
    OpenStackCode(l);
  }

  /** Stage 1 on the tokens of a sentence: the code of its tree, and whether it has chains. */
  lemma SentenceCode(re: Re)
    requires ReWritten(re) && !AllLiterals(ReTokens(re))
    ensures ReCounts(re) ==> Stage1(PrintRe(re)) == Ok(Code(ReCode(re) + [Match], ReChains(re)))
    ensures !ReCounts(re) ==> Stage1(PrintRe(re)) == Err(BadOp)
  {
    var text := PrintRe(re);
    SentenceLexes(re);
    var toks := LexAll(text, 0, false);
    assert toks[..|toks| - 1] == ReTokens(re);
    assert Flat(INITIAL) == INITIAL by { EmitNone(INITIAL); }
    var c := ReSteps(INITIAL, re);
    if ReCounts(re) {
      FinishFlat(c, OpenStack(re));
      OpenStackCode(re);
    }
  }

  lemma FinishFlat(c: Ctx, s: Stack)
    requires Calm(c) && StackOk(s) && Flat(c) == SetTarget(INITIAL, s)
    ensures Finish(c) == Ok(Code(Attach(s).code + [Match], c.chained))
  {
    assert c.prog.code + Buf(c) + [] == c.prog.code + Buf(c);
  }
}
