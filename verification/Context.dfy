/** The state of the one-pass compiler of librxvm/stage1.c, and what each token does to it.
    Stage1.dfy does the same by updating the state in place; Compilation.dfy proves that on the
    tokens of a sentence the result is the code of its tree. */
module Context {
  import opened Regex
  import opened Program
  import opened CodeGen
  import opened Lexer

  datatype Result<T> = Ok(value: T) | Err(error: Error)

  /** ir_stack_t: a list of instructions, oldest first. dangling is the place of the jump that
      still waits for its target, or -1; dsize is the size of the list when it was added. */
  datatype Stack = Stack(code: seq<Inst>, dangling: int, dsize: int)

  const EMPTY_STACK := Stack([], -1, 0)

  /** context_t. parens[0] is the literal buffer shared by all groups, the rest are the open
      groups, innermost last. target and buf are places in parens, except that target 0 is prog.
      operand is where the last operand starts: a place in parens and one in that list. */
  datatype Ctx = Ctx(
    prog: Stack, parens: seq<Stack>, target: nat, buf: nat, operand: (nat, nat),
    afterGroup: bool, chained: bool, inClass: bool, strb: string, negated: bool)

  const INITIAL := Ctx(EMPTY_STACK, [EMPTY_STACK], 0, 0, (0, 0), false, false, false, "", false)

  predicate StackOk(s: Stack) { -1 <= s.dangling < |s.code| }

  predicate Valid(c: Ctx) {
    && |c.parens| > 0 && c.target < |c.parens| && c.buf < |c.parens|
    && StackOk(c.prog) && (forall k :: 0 <= k < |c.parens| ==> StackOk(c.parens[k]))
    && c.parens[0].dangling == -1 && c.parens[c.buf].dangling == -1
    && (c.buf > 0 ==> c.buf != c.target)
    && (forall k :: c.target < k < |c.parens| ==> c.parens[k].dangling == -1)
    && (c.afterGroup ==> c.buf == |c.parens| - 1 && c.target < c.buf)
  }

  // ----- lists -----

  /** The list the code goes to. */
  function Target(c: Ctx): Stack
    requires Valid(c)
  {
    if c.target == 0 then c.prog else c.parens[c.target]
  }

  function SetTarget(c: Ctx, s: Stack): (r: Ctx)
    requires Valid(c) && StackOk(s)
    ensures Valid(r)
  {
    if c.target == 0 then c.(prog := s) else c.(parens := c.parens[c.target := s])
  }

  lemma SetSet(c: Ctx, s1: Stack, s2: Stack)
    requires Valid(c) && StackOk(s1) && StackOk(s2)
    ensures SetTarget(SetTarget(c, s1), s2) == SetTarget(c, s2)
  {
    assert c.parens[c.target := s1][c.target := s2] == c.parens[c.target := s2];
  }

  function Emit(c: Ctx, code: seq<Inst>): (r: Ctx)
    requires Valid(c)
    ensures Valid(r)
  {
    SetTarget(c, Target(c).(code := Target(c).code + code))
  }

  lemma EmitTwice(c: Ctx, a: seq<Inst>, b: seq<Inst>)
    requires Valid(c)
    ensures Emit(Emit(c, a), b) == Emit(c, a + b)
  {
    assert Target(c).code + a + b == Target(c).code + (a + b);
  }

  lemma EmitNone(c: Ctx)
    requires Valid(c)
    ensures Emit(c, []) == c
  {
    assert Target(c).code + [] == Target(c).code;
  }

  /** The list literals are added to and operands are taken from. */
  function Buf(c: Ctx): seq<Inst>
    requires Valid(c)
  {
    c.parens[c.buf].code
  }

  function SetList(c: Ctx, k: nat, code: seq<Inst>): (r: Ctx)
    requires Valid(c) && k < |c.parens| && c.parens[k].dangling == -1
    ensures Valid(r)
  {
    c.(parens := c.parens[k := c.parens[k].(code := code)])
  }

  /** The waiting jump gets its target: the end of the list. */
  function Attach(s: Stack): (r: Stack)
    requires StackOk(s)
    ensures StackOk(r) && r.dangling == -1
  {
    if s.dangling == -1 then s
    else Stack(s.code[s.dangling := Jmp(|s.code| - s.dsize + 1)], -1, s.dsize)
  }

  /** A branch in front of everything, a waiting jump behind it. */
  function Alternate(s: Stack): (r: Stack)
    requires StackOk(s)
    ensures StackOk(r)
  {
    var code := [Branch(1, |s.code| + 2)] + Attach(s).code + [Jmp(0)];
    Stack(code, |code| - 1, |code|)
  }

  /** The group just closed leaves the stack of groups. */
  function Pop(c: Ctx): (r: Ctx)
    requires Valid(c) && c.afterGroup
    ensures Valid(r)
  {
    c.(parens := c.parens[..|c.parens| - 1], buf := 0, afterGroup := false)
  }

  // ----- repetition counts -----

  const NO_FIELD := -1
  const FIELD_EMPTY := -2

  function CommaAt(s: string): (k: nat)
    ensures k <= |s| && (k < |s| ==> s[k] == ',')
    ensures forall j :: 0 <= j < k ==> s[j] != ','
  {
    if s == "" || s[0] == ',' then 0 else 1 + CommaAt(s[1..])
  }

  function Field(digits: string, missing: int): int
    requires Digits(digits)
  {
    if digits == "" then missing else Number(digits)
  }

  /** The two numbers of {n,m}: one that is not written is FIELD_EMPTY, and without a comma
      there is no second one. */
  function RepCounts(s: string): (int, int)
    requires RepText(s)
  {
    var k := CommaAt(s);
    if k == |s| then (Number(s), NO_FIELD)
    else
      var right := s[k + 1..];
      assert forall j :: 0 <= j < |right| ==> right[j] == s[k + 1 + j];
      (Field(s[..k], FIELD_EMPTY), Field(right, FIELD_EMPTY))
  }

  /** The code for operand x repeated between the two counts, as process_op_rep sorts them out. */
  function RepCode(x: seq<Inst>, counts: (int, int)): Result<seq<Inst>> {
    var (n, m) := counts;
    if n >= 0 && m >= 0 then
      if n == m then
        if n == 0 then Err(BadOp) else Ok(Copies(x, n))
      else if n + m == 1 then Ok(Optionals(x, 1))
      else Ok(Copies(x, Min(n, m)) + Optionals(x, Max(n, m) - Min(n, m)))
    else if n > 0 && m == FIELD_EMPTY then Ok(Copies(x, n - 1) + Plus(x))
    else if n == FIELD_EMPTY && m >= 0 then
      if m == 0 then Err(BadOp) else Ok(Optionals(x, m))
    else if n >= 0 && m == NO_FIELD then
      if n == 0 then Err(BadOp) else Ok(Copies(x, n))
    else if n == 0 && m == FIELD_EMPTY then Ok(Star(x))
    else Ok([])
  }

  // ----- what a token does -----

  predicate IsOp(tok: Token) {
    tok == One || tok == Zero || tok == OneZero || tok == Alt || tok.Rep?
  }

  /** The code an operator gives its operand; the alternation bar leaves it as it is. */
  function OpCode(tok: Token, x: seq<Inst>): Result<seq<Inst>>
    requires IsOp(tok)
  {
    match tok
    case One => Ok(Plus(x))
    case Zero => Ok(Star(x))
    case OneZero => Ok(Optionals(x, 1))
    case Rep(counts) => if RepText(counts) then RepCode(x, RepCounts(counts)) else Err(Undefined)
    case _ => Ok(x)
  }

  /** After an operator the buffer is empty and is the shared one again. */
  function Consume(c: Ctx): (r: Ctx)
    requires Valid(c)
    ensures Valid(r)
  {
    var c1 := SetList(c, c.buf, []);
    if c.afterGroup then Pop(c1) else c1.(buf := 0)
  }

  /** process_op. */
  function Op(c: Ctx, tok: Token): (r: Result<Ctx>)
    requires Valid(c) && IsOp(tok)
    ensures r.Ok? ==> Valid(r.value)
  {
    var b := Buf(c);
    if b == [] && tok != Alt then Err(BadOp)
    else if b != [] && !(c.operand.0 == c.buf && c.operand.1 < |b|) then Err(Undefined)
    else
      var k := if b == [] then 0 else c.operand.1;
      match OpCode(tok, b[k..])
      case Err(e) => Err(e)
      case Ok(code) =>
        var c1 := Emit(c, b[..k] + code);
        if tok == Alt then
          Ok(Consume(SetTarget(c1, Alternate(Target(c1))).(chained := c.chained || Target(c).dsize != 0)))
        else Ok(Consume(c1))
  }

  /** A group with something in it that no operator follows joins the code. */
  function Flush(c: Ctx): (r: Ctx)
    requires Valid(c)
    ensures Valid(r)
  {
    if c.afterGroup && Buf(c) != [] then Pop(Emit(c, Buf(c))) else c
  }

  function AddTo(c: Ctx, k: nat, inst: Inst): (r: Ctx)
    requires Valid(c) && k < |c.parens| && c.parens[k].dangling == -1
    ensures Valid(r)
  {
    SetList(c, k, c.parens[k].code + [inst]).(operand := (k, |c.parens[k].code|))
  }

  /** The shared literal buffer joins the code. */
  function FlushLiterals(c: Ctx): (r: Ctx)
    requires Valid(c)
    ensures Valid(r)
  {
    SetList(Emit(c, c.parens[0].code), 0, [])
  }

  function OpenGroup(c: Ctx): (r: Ctx)
    requires Valid(c)
    ensures Valid(r)
  {
    var c1 := FlushLiterals(c);
    c1.(parens := c1.parens + [EMPTY_STACK], target := |c1.parens|, afterGroup := false)
  }

  function CloseGroup(c: Ctx): (r: Ctx)
    requires Valid(c) && |c.parens| > 1
    ensures Valid(r)
  {
    var c1 := FlushLiterals(c);
    var c2 := SetTarget(c1, Attach(Target(c1)));
    var top := |c2.parens| - 1;
    c2.(operand := (top, 0), buf := top, target := top - 1, afterGroup := true)
  }

  /** A token that is no operator. */
  function Place(c: Ctx, tok: Token): (r: Result<Ctx>)
    requires Valid(c)
    ensures r.Ok? ==> Valid(r.value)
  {
    match tok
    case Literal(ch) => Ok(AddTo(c, c.buf, Char(ch)))
    case AnyTok => Ok(AddTo(c, c.buf, Any))
    case Sol => Ok(AddTo(c, c.buf, StartOfLine))
    case Eol => Ok(AddTo(c, c.buf, EndOfLine))
    case CharcOpen => Ok(c.(inClass := true, strb := ""))
    case LParen => Ok(OpenGroup(c))
    case RParen => if |c.parens| == 1 then Err(BadParen) else Ok(CloseGroup(c))
    case CharcClose => Err(BadClass)
    case _ => Ok(c)
  }

  /** stage1_main_state. */
  function Main(c: Ctx, tok: Token): (r: Result<Ctx>)
    requires Valid(c)
    ensures r.Ok? ==> Valid(r.value)
  {
    if IsOp(tok) then Op(c, tok) else Place(Flush(c), tok)
  }

  /** stage1_charc_state: between brackets. A range up to DEL is where the C loop does not end. */
  function Charc(c: Ctx, tok: Token): (r: Result<Ctx>)
    requires Valid(c)
    ensures r.Ok? ==> Valid(r.value)
  {
    match tok
    case Literal(ch) => if ch == '^' && !c.negated then Ok(c.(negated := true)) else Ok(c.(strb := c.strb + [ch]))
    case CharRange(from, to) =>
      if from < '\U{7f}' && to < '\U{7f}' then
        Ok(c.(strb := c.strb + if from > to then CharsFrom(to, from) else CharsFrom(from, to)))
      else Err(Undefined)
    case CharcClose =>
      var c1 := c.(inClass := false, negated := false);
      if c.strb == "" then Ok(c1)
      else Ok(AddTo(c1, 0, if c.negated then NClass(c.strb) else Class(c.strb)))
    case _ => Err(EInval)
  }

  /** One turn of the loop of stage1, and the note that the token was a closing parenthesis. */
  function Take(c: Ctx, tok: Token): (r: Result<Ctx>)
    requires Valid(c)
    ensures r.Ok? ==> Valid(r.value)
  {
    if tok.Fail? then Err(tok.error)
    else
      var r := if c.inClass then Charc(c, tok) else Main(c, tok);
      if r.Err? || tok == RParen then r else Ok(r.value.(afterGroup := false))
  }

  function TakeAll(c: Ctx, toks: seq<Token>): (r: Result<Ctx>)
    requires Valid(c)
    ensures r.Ok? ==> Valid(r.value)
    decreases |toks|
  {
    if toks == [] then Ok(c)
    else
      var r := Take(c, toks[0]);
      if r.Err? then r else TakeAll(r.value, toks[1..])
  }

  lemma {:induction false} TakeConcat(c: Ctx, a: seq<Token>, b: seq<Token>)
    requires Valid(c)
    ensures TakeAll(c, a + b) == if TakeAll(c, a).Err? then TakeAll(c, a) else TakeAll(TakeAll(c, a).value, b)
    decreases |a|
  {
    if a == [] {
      assert a + b == b;
    } else {
      assert (a + b)[0] == a[0] && (a + b)[1..] == a[1..] + b;
      var r := Take(c, a[0]);
      if r.Ok? {
        TakeConcat(r.value, a[1..], b);
      }
    }
  }

  lemma TakeOne(c: Ctx, tok: Token)
    requires Valid(c)
    ensures TakeAll(c, [tok]) == Take(c, tok)
  {
    var r := Take(c, tok);
    if r.Ok? { assert TakeAll(r.value, [tok][1..]) == r; }
  }

  /** Two stretches of tokens, both without error. */
  lemma TakeThen(c: Ctx, a: seq<Token>, c1: Ctx, b: seq<Token>)
    requires Valid(c) && TakeAll(c, a) == Ok(c1)
    ensures TakeAll(c, a + b) == TakeAll(c1, b)
  {
    TakeConcat(c, a, b);
  }

  lemma TakeCons(c: Ctx, tok: Token, c1: Ctx, rest: seq<Token>)
    requires Valid(c) && Take(c, tok) == Ok(c1)
    ensures TakeAll(c, [tok] + rest) == TakeAll(c1, rest)
  {
    assert ([tok] + rest)[1..] == rest;
  }

  lemma TakeFails(c: Ctx, a: seq<Token>, b: seq<Token>)
    requires Valid(c) && TakeAll(c, a).Err?
    ensures TakeAll(c, a + b) == TakeAll(c, a)
  {
    TakeConcat(c, a, b);
  }

  // ----- the end of the pattern -----

  /** What stage1 hands over: the pattern itself when it is all literals, or a list for stage 2
      and whether it has chains of jumps. */
  datatype Compiled = Literals(text: string) | Code(code: seq<Inst>, chained: bool)

  function Finish(c: Ctx): Result<Compiled>
    requires Valid(c)
  {
    var c1 :=
      if c.afterGroup && Buf(c) != [] then Pop(c).(prog := c.prog.(code := c.prog.code + Buf(c)))
      else c;
    if c1.inClass then Err(EClass)
    else if |c1.parens| != 1 then Err(EParen)
    else
      var prog := Attach(c1.prog.(code := c1.prog.code + c1.parens[0].code));
      Ok(Code(prog.code + [Match], c1.chained))
  }

  /** The last token is the end or an error. */
  lemma {:induction false} LastToken(text: string, p: int, literal: bool)
    requires 0 <= p <= |text|
    ensures var toks := LexAll(text, p, literal);
      |toks| > 0 && (toks[|toks| - 1] == End || toks[|toks| - 1].Fail?)
    decreases |text| - p
  {
    var r := LexAt(text, p, literal);
    if r.tok != End && !r.tok.Fail? {
      LastToken(text, r.next, r.literal);
    }
  }

  predicate AllLiterals(toks: seq<Token>) {
    forall k :: 0 <= k < |toks| ==> toks[k].Literal?
  }

  /** stage1 on the tokens of a pattern, the last of which is the end or the first error. */
  function Compile(text: string, toks: seq<Token>): Result<Compiled>
    requires |toks| > 0 && (toks[|toks| - 1] == End || toks[|toks| - 1].Fail?)
  {
    var body, last := toks[..|toks| - 1], toks[|toks| - 1];
    if last == End && AllLiterals(body) then Ok(Literals(text))
    else
      match TakeAll(INITIAL, body)
      case Err(e) => Err(e)
      case Ok(c) => if last.Fail? then Err(last.error) else Finish(c)
  }

  function Stage1(text: string): Result<Compiled> {
    LastToken(text, 0, false);
    Compile(text, LexAll(text, 0, false))
  }
}
