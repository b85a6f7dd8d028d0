/** Exactly which expressions stage 1 refuses, sentences or not, and with which error: stated of
    their tokens. */
module Errors {
  import opened Regex
  import opened Program
  import opened CodeGen
  import opened Lexer
  import opened LexShapes
  import opened Sentences
  import opened Context
  import opened Compilation

  // ----- what the tokens read so far look like -----

  /** Opening minus closing parentheses outside brackets. */
  function Depth(toks: seq<Token>): int
    decreases |toks|
  {
    if toks == [] then 0
    else
      var n := |toks| - 1;
      Depth(toks[..n]) + (if Inside(toks[..n]) then 0 else if toks[n] == LParen then 1
                          else if toks[n] == RParen then -1 else 0)
  }

  /** The tokens in front of the bracket that is open, and those behind it. */
  function Opening(toks: seq<Token>): (u: seq<Token>)
    requires Inside(toks)
    ensures |u| < |toks| && u == toks[..|u|] && toks[|u|] == CharcOpen && !Inside(u)
    decreases |toks|
  {
    var n := |toks| - 1;
    if Inside(toks[..n]) then Opening(toks[..n]) else toks[..n]
  }

  function ClassTokens(toks: seq<Token>): seq<Token>
    requires Inside(toks)
  {
    toks[|Opening(toks)| + 1..]
  }

  /** Brackets with nothing between them but a hat: they leave no instruction. */
  predicate NoMembers(class_: seq<Token>) { class_ == [] || class_ == [Literal('^')] }

  /** Without such brackets at the end. */
  function Bare(toks: seq<Token>): (u: seq<Token>)
    ensures |u| <= |toks|
    decreases |toks|
  {
    var n := |toks|;
    if n < 2 || toks[n - 1] != CharcClose then toks
    else if toks[n - 2] == CharcOpen then Bare(toks[..n - 2])
    else if n >= 3 && toks[n - 2] == Literal('^') && toks[n - 3] == CharcOpen then Bare(toks[..n - 3])
    else toks
  }

  /** Nothing since the last opening parenthesis. */
  predicate JustOpened(toks: seq<Token>) {
    var u := Bare(toks);
    u != [] && u[|u| - 1] == LParen
  }

  /** The last element is one character, a dot, an anchor or a set. */
  predicate EndsSingle(toks: seq<Token>) {
    var u := Bare(toks);
    u != [] &&
    var last := u[|u| - 1];
    last.Literal? || last == AnyTok || last == Sol || last == Eol || last == CharcClose
  }

  /** A group with nothing in it has just been closed. */
  predicate EndsHollow(toks: seq<Token>) {
    toks != [] && toks[|toks| - 1] == RParen && !Inside(toks[..|toks| - 1]) && JustOpened(toks[..|toks| - 1])
  }

  /** There is an operand directly before the next token. */
  predicate HasOperand(toks: seq<Token>) {
    EndsSingle(toks) || (toks != [] && toks[|toks| - 1] == RParen && !EndsHollow(toks))
  }

  predicate Operator(tok: Token) { tok == One || tok == Zero || tok == OneZero || tok == Alt || tok.Rep? }

  /** Counts that allow no repetition at all: zeros, not followed by a comma alone. */
  predicate ZeroOnly(counts: string) {
    && counts != "" && counts[|counts| - 1] == '0'
    && forall k :: 0 <= k < |counts| ==> counts[k] == '0' || counts[k] == ','
  }

  // ----- the errors -----

  /** What is wrong with tok behind toks. */
  function Refusal(toks: seq<Token>, tok: Token): Option<Error> {
    if Inside(toks) then
      match tok
      case Literal(_) => None
      case CharRange(from, to) => if from < '\U{7f}' && to < '\U{7f}' then None else Some(Undefined)
      case CharcClose => None
      case _ => Some(EInval)
    else if tok == RParen && Depth(toks) == 0 then Some(BadParen)
    else if tok == CharcClose then Some(BadClass)
    else if Operator(tok) && tok != Alt && !HasOperand(toks) then Some(BadOp)
    else if tok.Rep? && ZeroOnly(tok.counts) then Some(BadOp)
    else None
  }

  predicate Accepted(toks: seq<Token>, k: int)
    requires 0 <= k <= |toks|
  {
    forall j :: 0 <= j < k ==> Refusal(toks[..j], toks[j]).None?
  }

  /** The first token that is refused is number k, with error e. */
  predicate RefusedAt(toks: seq<Token>, k: int, e: Error) {
    0 <= k < |toks| && Accepted(toks, k) && Refusal(toks[..k], toks[k]) == Some(e)
  }

  predicate Proper(tok: Token, inside: bool) {
    TokenOk(tok) && !tok.Fail? && tok != End && (inside || (!tok.CharRange? && tok != InvalidSym))
  }

  /** The tokens that the lexer gives, ranges between brackets only. */
  predicate FromLexer(toks: seq<Token>) {
    forall k :: 0 <= k < |toks| ==> Proper(toks[k], Inside(toks[..k]))
  }

  lemma SpeltProper(text: string, stops: seq<int>, toks: seq<Token>)
    requires SpeltOut(text, stops, toks)
    ensures FromLexer(toks)
  {
    forall k | 0 <= k < |toks| ensures Proper(toks[k], Inside(toks[..k])) {
      assert SpeltAt(text, stops, toks, k);
    }
  }

  /** Behind a group with nothing in it an operator comes, unless something is refused before. */
  predicate OrderlyAt(toks: seq<Token>, k: int)
    requires 0 <= k < |toks|
  {
    Accepted(toks, k) && EndsHollow(toks[..k]) ==> Operator(toks[k])
  }

  predicate OrderlyTo(toks: seq<Token>, n: int)
    requires 0 <= n <= |toks|
  {
    forall k :: 0 <= k < n ==> OrderlyAt(toks, k)
  }

  /** Nothing but an operator follows a group with nothing in it, unless something is refused before. */
  predicate Orderly(toks: seq<Token>) { OrderlyTo(toks, |toks|) }

  // ----- the state of the compiler -----

  /** The group at hand has nothing in it. */
  ghost predicate Blank(c: Ctx)
    requires Valid(c)
  {
    !c.afterGroup && c.parens[0].code == [] && Target(c).code == []
  }

  /** A group with nothing in it waits on the stack. */
  ghost predicate Hollow(c: Ctx) {
    && Valid(c) && !c.inClass && !c.negated && c.afterGroup && Buf(c) == [] && c.parens[0].code == []
    && c.target == |c.parens| - 2
  }

  /** All that the next step depends on. */
  datatype Signs = Signs(inside: bool, depth: int, single: bool, blank: bool, closed: bool, hollow: bool)

  function SignsOf(toks: seq<Token>): Signs {
    Signs(Inside(toks), Depth(toks), EndsSingle(toks), JustOpened(toks),
          toks != [] && toks[|toks| - 1] == RParen, EndsHollow(toks))
  }

  predicate Single(tok: Token) { tok.Literal? || tok == AnyTok || tok == Sol || tok == Eol }

  /** Outside brackets. */
  function NextSigns(s: Signs, tok: Token): Signs {
    Signs(tok == CharcOpen, s.depth + (if tok == LParen then 1 else if tok == RParen then -1 else 0),
          Single(tok), tok == LParen, tok == RParen, tok == RParen && s.blank)
  }

  ghost predicate Between(s: Signs, c: Ctx) {
    && Calm(c) && c.target == s.depth && (Buf(c) != [] <==> s.single || s.closed) && (c.afterGroup <==> s.closed)
    && (s.depth > 0 ==> (Blank(c) <==> s.blank)) && !(s.closed && (s.single || s.blank))
  }

  /** Between brackets: the state in front of them, and what the set has so far. */
  ghost predicate InSet(s: Signs, cls: seq<Token>, c: Ctx) {
    && c.inClass && !c.afterGroup && Calm(c.(inClass := false, negated := false)) && c.target == s.depth
    && (Buf(c) != [] <==> s.single) && (s.depth > 0 ==> (Blank(c) <==> s.blank))
    && (forall k :: 0 <= k < |cls| ==> cls[k].Literal? || cls[k].CharRange?)
    && (c.negated <==> Literal('^') in cls) && (c.strb == "" <==> NoMembers(cls))
  }

  ghost predicate Tracks(toks: seq<Token>, c: Ctx) {
    var s := SignsOf(toks);
    if s.inside then InSet(SignsOf(Opening(toks)), ClassTokens(toks), c)
    else if s.hollow then Hollow(c) && c.target == s.depth
    else Between(s, c)
  }

  // ----- one token more -----

  lemma LastOf(u: seq<Token>, tok: Token, w: seq<Token>)
    requires w == u + [tok]
    ensures w != [] && w[|w| - 1] == tok && w[..|w| - 1] == u
  {
  }

  lemma BareMore(u: seq<Token>, tok: Token, w: seq<Token>)
    requires w == u + [tok] && tok != CharcClose
    ensures Bare(w) == w
  {
    LastOf(u, tok, w);
  }

  lemma SignsMore(u: seq<Token>, tok: Token, w: seq<Token>)
    requires w == u + [tok] && !Inside(u) && tok != CharcClose
    ensures SignsOf(w) == NextSigns(SignsOf(u), tok)
  {
    LastOf(u, tok, w);
    BareMore(u, tok, w);
  }

  /** Which counts are refused. */
  lemma CountsRefused(s: string, x: seq<Inst>)
    requires RepText(s)
    ensures RepCode(x, RepCounts(s)) == Err(BadOp) <==> ZeroOnly(s)
    ensures RepCode(x, RepCounts(s)).Err? ==> RepCode(x, RepCounts(s)) == Err(BadOp)
    ensures RepCode(x, RepCounts(s)).Ok? && x != [] ==> RepCode(x, RepCounts(s)).value != []
  {
    var k := CommaAt(s);
    if k == |s| {
      ZeroNumber(s);
    } else {
      var left, right := s[..k], s[k + 1..];
      assert forall j :: 0 <= j < |right| ==> right[j] == s[k + 1 + j];
      assert left != "" || right != "";
      ZeroNumber(left);
      ZeroNumber(right);
      assert forall j :: 0 <= j < |s| ==> s[j] == if j < k then left[j] else if j == k then ',' else right[j - k - 1];
    }
  }

  lemma OpRefused(tok: Token, x: seq<Inst>)
    requires Operator(tok) && tok != Alt && TokenOk(tok) && x != []
    ensures OpCode(tok, x) == Err(BadOp) <==> tok.Rep? && ZeroOnly(tok.counts)
    ensures OpCode(tok, x).Err? ==> OpCode(tok, x) == Err(BadOp)
    ensures OpCode(tok, x).Ok? ==> OpCode(tok, x).value != []
  {
    if tok.Rep? { CountsRefused(tok.counts, x); }
  }

  predicate Wrong(s: Signs, tok: Token) {
    || (tok == RParen && s.depth == 0)
    || (Operator(tok) && tok != Alt && (!(s.single || (s.closed && !s.hollow)) || (tok.Rep? && ZeroOnly(tok.counts))))
  }

  lemma RefusalSigns(u: seq<Token>, tok: Token)
    requires !Inside(u) && tok != CharcClose
    ensures Refusal(u, tok) ==
      if Wrong(SignsOf(u), tok) then Some(if tok == RParen then BadParen else BadOp) else None
  {
  }

  // ----- outside brackets -----

  lemma SingleTracks(s: Signs, c: Ctx, tok: Token, inst: Inst) returns (c': Ctx)
    requires Between(s, c)
    requires match tok
             case Literal(ch) => inst == Char(ch)
             case AnyTok => inst == Any
             case Sol => inst == StartOfLine
             case Eol => inst == EndOfLine
             case _ => false
    ensures Take(c, tok) == Ok(c') && Between(NextSigns(s, tok), c')
  {
    FlatFlush(c);
    c' := SingleStep(c, tok, inst);
    SingleTakes(c, tok, inst, AddTo(Flush(c), 0, inst));
  }

  lemma ConsumedState(c: Ctx, t: Stack, chained: bool, c': Ctx)
    requires Calm(c) && StackOk(t) && c' == Consume(SetTarget(c, t).(chained := chained))
    ensures Valid(c') && Buf(c') == [] && !c'.afterGroup && c'.target == c.target && Target(c') == t
  {
  }

  lemma OperatorTracks(s: Signs, c: Ctx, tok: Token) returns (c': Ctx)
    requires Between(s, c) && !s.hollow && Operator(tok) && tok != Alt && TokenOk(tok)
    ensures !Wrong(s, tok) ==> Take(c, tok) == Ok(c') && Between(NextSigns(s, tok), c')
    ensures Wrong(s, tok) ==> Take(c, tok) == Err(BadOp)
  {
    c' := c;
    if Buf(c) != [] {
      var x := Buf(c)[c.operand.1..];
      OpRefused(tok, x);
      if !Wrong(s, tok) { c' := OperatorDone(c, tok, x, OpCode(tok, x).value); }
    }
  }

  lemma OperatorDone(c: Ctx, tok: Token, x: seq<Inst>, code: seq<Inst>) returns (c': Ctx)
    requires Calm(c) && Operand(c, x) && IsOp(tok) && tok != Alt && OpCode(tok, x) == Ok(code) && code != []
    ensures Take(c, tok) == Ok(c') && Calm(c') && Buf(c') == [] && !c'.afterGroup && c'.target == c.target && !Blank(c')
  {
    OpTakes(c, tok, x, code);
    var all := Buf(c)[..c.operand.1] + code;
    c' := Consume(Emit(c, all));
    EmitConsumed(c, all, c');
    var t := Target(c).(code := Target(c).code + all);
    assert Emit(c, all) == SetTarget(c, t).(chained := c.chained);
    ConsumedState(c, t, c.chained, c');
  }

  lemma BarTracks(s: Signs, c: Ctx) returns (c': Ctx)
    requires Between(s, c)
    ensures Take(c, Alt) == Ok(c') && Between(NextSigns(s, Alt), c')
  {
    c' := BarTaken(c);
    var c2 := AltStep(c);
  }

  lemma BarTaken(c: Ctx) returns (c': Ctx)
    requires Calm(c)
    ensures Take(c, Alt) == Ok(c')
    ensures Valid(c') && Buf(c') == [] && !c'.afterGroup && c'.target == c.target && !Blank(c')
  {
    c' := AltTakes(c);
    BarState(c, Target(Emit(c, Buf(c))), c.chained || Target(c).dsize != 0, c');
  }

  lemma BarState(c: Ctx, t: Stack, chained: bool, c': Ctx)
    requires Calm(c) && StackOk(t) && c' == Consume(SetTarget(SetTarget(c, t), Alternate(t)).(chained := chained))
    ensures Valid(c') && Buf(c') == [] && !c'.afterGroup && c'.target == c.target && !Blank(c')
  {
    SetSet(c, t, Alternate(t));
    ConsumedState(c, Alternate(t), chained, c');
  }

  lemma OpenTracks(s: Signs, c: Ctx) returns (c': Ctx)
    requires Between(s, c)
    ensures Take(c, LParen) == Ok(c') && Between(NextSigns(s, LParen), c')
  {
    FlatFlush(c);
    c' := OpenStep(c);
    assert c' == OpenGroup(Flush(c));
  }

  lemma CloseTracks(s: Signs, c: Ctx) returns (c': Ctx)
    requires Between(s, c)
    ensures s.depth == 0 ==> Take(c, RParen) == Err(BadParen)
    ensures s.depth > 0 && s.blank ==> Take(c, RParen) == Ok(c') && Hollow(c') && c'.target == s.depth - 1
    ensures s.depth > 0 && !s.blank ==> Take(c, RParen) == Ok(c') && Between(NextSigns(s, RParen), c')
  {
    FlatFlush(c);
    var c1 := Flush(c);
    c' := c;
    if s.depth > 0 {
      FlushBlank(c);
      c' := CloseGroup(c1);
      CloseState(c1, c');
    }
  }

  lemma FlushBlank(c: Ctx)
    requires Calm(c)
    ensures Calm(Flush(c)) && Blank(Flush(c)) == Blank(c) && Flush(c).target == c.target && !Flush(c).afterGroup
  {
    FlatFlush(c);
  }

  lemma CloseState(c: Ctx, c': Ctx)
    requires Calm(c) && !c.afterGroup && c.target > 0 && c' == CloseGroup(c)
    ensures c'.target == c.target - 1 && c'.afterGroup && !Blank(c') && c'.parens[0].code == []
    ensures if Blank(c) then Hollow(c') else Calm(c') && Buf(c') != []
  {
    var c1 := FlushLiterals(c);
    assert Target(c1).code == Target(c).code + c.parens[0].code;
  }

  lemma BracketTracks(s: Signs, c: Ctx) returns (c': Ctx)
    requires Between(s, c)
    ensures Take(c, CharcOpen) == Ok(c') && InSet(s, [], c')
  {
    FlushBlank(c);
    c' := Flush(c).(inClass := true, strb := "", afterGroup := false);
    assert c'.(inClass := false, negated := false) == Flush(c).(strb := "");
  }

  lemma HollowTracks(s: Signs, c: Ctx, tok: Token) returns (c': Ctx)
    requires Hollow(c) && c.target == s.depth && Operator(tok)
    ensures tok == Alt ==> Take(c, tok) == Ok(c') && Between(NextSigns(s, tok), c')
    ensures tok != Alt ==> Take(c, tok) == Err(BadOp)
  {
    c' := c;
    if tok == Alt { c' := Take(c, tok).value; }
  }

  // ----- between brackets -----

  lemma InsideMore(u: seq<Token>, tok: Token, w: seq<Token>)
    requires Inside(u) && tok != CharcClose && w == u + [tok]
    ensures Inside(w) && Opening(w) == Opening(u) && ClassTokens(w) == ClassTokens(u) + [tok]
  {
    LastOf(u, tok, w);
  }

  lemma {:induction false} DepthInside(u: seq<Token>)
    requires Inside(u)
    ensures Depth(u) == Depth(Opening(u))
    decreases |u|
  {
    if Inside(u[..|u| - 1]) { DepthInside(u[..|u| - 1]); }
  }

  /** What a closed set leaves: an operand, or what was there before it. */
  function ClosedSigns(s: Signs, cls: seq<Token>): Signs {
    Signs(false, s.depth, if NoMembers(cls) then s.single else true, NoMembers(cls) && s.blank, false, false)
  }

  lemma ClosedMore(u: seq<Token>, w: seq<Token>)
    requires Inside(u) && w == u + [CharcClose]
    requires forall k :: 0 <= k < |ClassTokens(u)| ==> ClassTokens(u)[k] != CharcOpen
    ensures SignsOf(w) == ClosedSigns(SignsOf(Opening(u)), ClassTokens(u))
  {
    LastOf(u, CharcClose, w);
    DepthInside(u);
    ClosedEnds(u, w, Opening(u), ClassTokens(u));
  }

  lemma ClosedEnds(u: seq<Token>, w: seq<Token>, before: seq<Token>, cls: seq<Token>)
    requires u == before + [CharcOpen] + cls && w == u + [CharcClose]
    requires forall k :: 0 <= k < |cls| ==> cls[k] != CharcOpen
    ensures EndsSingle(w) == if NoMembers(cls) then EndsSingle(before) else true
    ensures JustOpened(w) == (NoMembers(cls) && JustOpened(before))
  {
    LastOf(u, CharcClose, w);
    ClosedBare(u, w, before, cls);
  }

  lemma ClosedBare(u: seq<Token>, w: seq<Token>, before: seq<Token>, cls: seq<Token>)
    requires u == before + [CharcOpen] + cls && w == u + [CharcClose]
    requires forall k :: 0 <= k < |cls| ==> cls[k] != CharcOpen
    ensures Bare(w) == if NoMembers(cls) then Bare(before) else w
  {
    var n := |w|;
    if cls == [] {
      assert w[n - 2] == CharcOpen && w[..n - 2] == before;
    } else {
      assert w[n - 2] == cls[|cls| - 1];
      if |cls| == 1 {
        assert w[n - 3] == CharcOpen && w[..n - 3] == before && cls == [cls[0]];
      } else {
        assert w[n - 3] == cls[|cls| - 2];
      }
    }
  }

  lemma MemberGives(c: Ctx, tok: Token) returns (c': Ctx)
    requires Valid(c) && c.inClass && !c.afterGroup
    requires tok.Literal? || (tok.CharRange? && tok.from < '\U{7f}' && tok.to < '\U{7f}')
    ensures Take(c, tok) == Ok(c') && c' == c.(strb := c'.strb, negated := c'.negated)
    ensures if tok == Literal('^') && !c.negated then c'.negated && c'.strb == c.strb
            else c'.negated == c.negated && c'.strb != ""
  {
    c' := Take(c, tok).value;
  }

  lemma NoMembersMore(cls: seq<Token>, tok: Token)
    ensures NoMembers(cls + [tok]) <==> cls == [] && tok == Literal('^')
  {
    if cls != [] { assert |cls + [tok]| > 1; }
    assert (cls + [tok])[|cls|] == tok;
  }

  lemma MemberTracks(s: Signs, cls: seq<Token>, c: Ctx, tok: Token) returns (c': Ctx)
    requires InSet(s, cls, c)
    requires tok.Literal? || (tok.CharRange? && tok.from < '\U{7f}' && tok.to < '\U{7f}')
    ensures Take(c, tok) == Ok(c') && InSet(s, cls + [tok], c')
  {
    c' := MemberGives(c, tok);
    NoMembersMore(cls, tok);
    assert c'.(inClass := false, negated := false) == c.(inClass := false, negated := false).(strb := c'.strb);
  }

  lemma ClosedTracks(s: Signs, cls: seq<Token>, c: Ctx) returns (c': Ctx)
    requires InSet(s, cls, c) && !(s.closed && (s.single || s.blank))
    ensures Take(c, CharcClose) == Ok(c') && Between(ClosedSigns(s, cls), c')
  {
    var c1 := c.(inClass := false, negated := false);
    if c.strb == "" {
      c' := c1;
    } else {
      var inst := if c.negated then NClass(c.strb) else Class(c.strb);
      c' := AddTo(c1, 0, inst);
      AddedFlat(c1, inst, c');
    }
  }

  // ----- any token -----

  lemma ClosedAlone(u: seq<Token>)
    ensures var s := SignsOf(u); s.closed ==> !s.single && !s.blank
    ensures SignsOf(u).hollow ==> SignsOf(u).closed
  {
    if u != [] && u[|u| - 1] == RParen {
      assert u == u[..|u| - 1] + [RParen];
      BareMore(u[..|u| - 1], RParen, u);
    }
  }

  lemma InsideTracks(u: seq<Token>, c: Ctx, tok: Token, w: seq<Token>) returns (c': Ctx)
    requires Inside(u) && InSet(SignsOf(Opening(u)), ClassTokens(u), c) && Proper(tok, true) && w == u + [tok]
    ensures Refusal(u, tok).None? ==> Take(c, tok) == Ok(c') && Tracks(w, c')
    ensures Refusal(u, tok).Some? ==> Take(c, tok) == Err(Refusal(u, tok).value)
  {
    var s, cls := SignsOf(Opening(u)), ClassTokens(u);
    c' := c;
    if tok == CharcClose {
      ClosedAlone(Opening(u));
      c' := ClosedTracks(s, cls, c);
      ClosedMore(u, w);
    } else if Refusal(u, tok).None? {
      c' := MemberTracks(s, cls, c, tok);
      InsideMore(u, tok, w);
    }
  }

  ghost predicate Moved(s: Signs, tok: Token, c: Ctx) {
    if tok == CharcOpen then InSet(s, [], c)
    else if tok == RParen && s.blank then Hollow(c) && c.target == s.depth - 1
    else Between(NextSigns(s, tok), c)
  }

  lemma OutsideStep(s: Signs, c: Ctx, tok: Token) returns (c': Ctx)
    requires !s.inside && Proper(tok, false) && tok != CharcClose
    requires s.hollow ==> s.closed && !s.single && Operator(tok)
    requires if s.hollow then Hollow(c) && c.target == s.depth else Between(s, c)
    ensures Wrong(s, tok) ==> Take(c, tok) == Err(if tok == RParen then BadParen else BadOp)
    ensures !Wrong(s, tok) ==> Take(c, tok) == Ok(c') && Moved(s, tok, c')
  {
    if s.hollow {
      c' := HollowTracks(s, c, tok);
    } else {
      match tok
      case Literal(ch) => c' := SingleTracks(s, c, tok, Char(ch));
      case AnyTok => c' := SingleTracks(s, c, tok, Any);
      case Sol => c' := SingleTracks(s, c, tok, StartOfLine);
      case Eol => c' := SingleTracks(s, c, tok, EndOfLine);
      case LParen => c' := OpenTracks(s, c);
      case RParen => c' := CloseTracks(s, c);
      case CharcOpen => c' := BracketTracks(s, c);
      case Alt => c' := BarTracks(s, c);
      case _ => c' := OperatorTracks(s, c, tok);
    }
  }

  lemma OpeningMore(u: seq<Token>, w: seq<Token>)
    requires !Inside(u) && w == u + [CharcOpen]
    ensures Inside(w) && Opening(w) == u && ClassTokens(w) == []
  {
    LastOf(u, CharcOpen, w);
  }

  /** One token: it is refused or the state goes with it. */
  lemma StepTracks(u: seq<Token>, c: Ctx, tok: Token, w: seq<Token>) returns (c': Ctx)
    requires Valid(c) && Tracks(u, c) && Proper(tok, Inside(u)) && (EndsHollow(u) ==> Operator(tok)) && w == u + [tok]
    ensures Refusal(u, tok).None? ==> Take(c, tok) == Ok(c') && Tracks(w, c')
    ensures Refusal(u, tok).Some? ==> Take(c, tok) == Err(Refusal(u, tok).value)
  {
    c' := c;
    if Inside(u) {
      c' := InsideTracks(u, c, tok, w);
    } else if tok != CharcClose {
      SignsMore(u, tok, w);
      RefusalSigns(u, tok);
      ClosedAlone(u);
      c' := OutsideStep(SignsOf(u), c, tok);
      if tok == CharcOpen { OpeningMore(u, w); }
    }
  }

  lemma {:induction false} AcceptedNext(toks: seq<Token>, k: int, u: seq<Token>, tok: Token)
    requires 0 <= k < |toks| && Accepted(toks, k) && u == toks[..k] && tok == toks[k]
    ensures Accepted(toks, k + 1) <==> Refusal(u, tok).None?
  {
    forall j | 0 <= j < k ensures Refusal(toks[..j], toks[j]).None? {}
  }

  lemma {:induction false} ProperAt(toks: seq<Token>, k: int, u: seq<Token>, tok: Token)
    requires 0 <= k < |toks| && FromLexer(toks) && u == toks[..k] && tok == toks[k]
    ensures Proper(tok, Inside(u))
  {
    assert Proper(toks[k], Inside(toks[..k]));
  }

  lemma {:induction false} AtHand(toks: seq<Token>, k: int, u: seq<Token>, tok: Token)
    requires 0 <= k < |toks| && FromLexer(toks) && OrderlyAt(toks, k) && Accepted(toks, k)
    requires u == toks[..k] && tok == toks[k]
    ensures Proper(tok, Inside(u)) && (EndsHollow(u) ==> Operator(tok)) && toks[..k + 1] == u + [tok]
    ensures Accepted(toks, k + 1) <==> Refusal(u, tok).None?
  {
    AcceptedNext(toks, k, u, tok);
    ProperAt(toks, k, u, tok);
  }

  /** The next token of a list. */
  lemma NextTracks(toks: seq<Token>, k: int, u: seq<Token>, c: Ctx, tok: Token) returns (c': Ctx)
    requires 0 <= k < |toks| && FromLexer(toks) && OrderlyAt(toks, k) && Accepted(toks, k)
    requires u == toks[..k] && tok == toks[k]
    requires TakeAll(INITIAL, u) == Ok(c) && Valid(c) && Tracks(u, c)
    ensures Refusal(u, tok).None? ==> TakeAll(INITIAL, u + [tok]) == Ok(c') && Valid(c') && Tracks(u + [tok], c')
    ensures Refusal(u, tok).Some? ==> TakeAll(INITIAL, u + [tok]) == Err(Refusal(u, tok).value)
  {
    AtHand(toks, k, u, tok);
    c' := StepTracks(u, c, tok, u + [tok]);
    TakeThen(INITIAL, u, c, [tok]);
    TakeOne(c, tok);
  }

  /** As long as nothing is refused the state goes with the tokens. */
  lemma {:induction false} PrefixTracks(toks: seq<Token>, k: int, u: seq<Token>) returns (c: Ctx)
    requires 0 <= k <= |toks| && FromLexer(toks) && OrderlyTo(toks, k) && Accepted(toks, k) && u == toks[..k]
    ensures TakeAll(INITIAL, u) == Ok(c) && Valid(c) && Tracks(u, c)
    decreases k
  {
    if k == 0 {
      c := INITIAL;
    } else {
      var n, before := k - 1, toks[..k - 1];
      var c1 := PrefixTracks(toks, n, before);
      AtHand(toks, n, before, toks[n]);
      c := NextTracks(toks, n, before, c1, toks[n]);
    }
  }

  // ----- the whole expression -----

  lemma RefusedNow(toks: seq<Token>, k: int, u: seq<Token>, tok: Token, e: Error)
    requires FromLexer(toks) && Orderly(toks) && RefusedAt(toks, k, e) && u == toks[..k] && tok == toks[k]
    ensures TakeAll(INITIAL, u + [tok]) == Err(e)
  {
    assert OrderlyAt(toks, k);
    var c := PrefixTracks(toks, k, u);
    var c' := NextTracks(toks, k, u, c, tok);
  }

  lemma SplitAt(toks: seq<Token>, k: int, u: seq<Token>, tok: Token, rest: seq<Token>)
    requires 0 <= k < |toks| && u == toks[..k] && tok == toks[k] && rest == toks[k + 1..]
    ensures toks == u + [tok] + rest
  {
  }

  lemma PrefixFails(u: seq<Token>, rest: seq<Token>, toks: seq<Token>, e: Error)
    requires toks == u + rest && TakeAll(INITIAL, u) == Err(e)
    ensures TakeAll(INITIAL, toks) == Err(e)
  {
    TakeFails(INITIAL, u, rest);
  }

  lemma RefusedTakes(toks: seq<Token>, k: int, u: seq<Token>, tok: Token, rest: seq<Token>, e: Error)
    requires FromLexer(toks) && Orderly(toks) && RefusedAt(toks, k, e)
    requires u == toks[..k] && tok == toks[k] && rest == toks[k + 1..]
    ensures TakeAll(INITIAL, toks) == Err(e)
  {
    RefusedNow(toks, k, u, tok, e);
    SplitAt(toks, k, u, tok, rest);
    PrefixFails(u + [tok], rest, toks, e);
  }

  lemma FinishExact(toks: seq<Token>, c: Ctx)
    requires Valid(c) && Tracks(toks, c)
    ensures match Finish(c)
            case Err(e) =>
              && e == (if Inside(toks) then EClass else EParen)
              && (Inside(toks) || Depth(toks) != 0 || EndsHollow(toks))
            case Ok(_) => !Inside(toks) && Depth(toks) == 0 && !EndsHollow(toks)
  {
  }

  lemma {:induction false} FirstRefused(toks: seq<Token>, k: int) returns (j: int)
    requires 0 <= k <= |toks|
    ensures 0 <= j <= k && Accepted(toks, j) && (j < k ==> Refusal(toks[..j], toks[j]).Some?)
  {
    if k == 0 {
      j := 0;
    } else {
      j := FirstRefused(toks, k - 1);
      if j == k - 1 && Refusal(toks[..j], toks[j]).None? { j := k; }
    }
  }

  /** What stage 1 says of a text, by its tokens: the first that is refused decides; else an error of
      the lexer; else a bracket or a group that is left open. */
  lemma RefusedExactly(text: string, stops: seq<int>, toks: seq<Token>, last: Token)
    requires SpeltOut(text, stops, toks) && EndsWith(text, stops, toks, last) && Orderly(toks)
    ensures forall k, e :: RefusedAt(toks, k, e) ==> Stage1(text) == Err(e)
    ensures Accepted(toks, |toks|) ==> Stage1Ends(text, toks, last)
    ensures Accepted(toks, |toks|) || exists k, e :: RefusedAt(toks, k, e)
  {
    LexesExactly(text, toks, last);
    SpeltProper(text, stops, toks);
    assert (toks + [last])[..|toks|] == toks;
    forall k, e | RefusedAt(toks, k, e) ensures Stage1(text) == Err(e) {
      if AllLiterals(toks) { LiteralsAccepted(toks, |toks|); }
      RefusedTakes(toks, k, toks[..k], toks[k], toks[k + 1..], e);
    }
    var j := FirstRefused(toks, |toks|);
    if j == |toks| {
      AcceptedEnds(text, toks, last);
    } else {
      assert RefusedAt(toks, j, Refusal(toks[..j], toks[j]).value);
    }
  }

  predicate Stage1Ends(text: string, toks: seq<Token>, last: Token) {
    if last.Fail? then Stage1(text) == Err(last.error)
    else if Inside(toks) then Stage1(text) == Err(EClass)
    else if Depth(toks) != 0 || EndsHollow(toks) then Stage1(text) == Err(EParen)
    else Stage1(text).Ok?
  }

  lemma AcceptedEnds(text: string, toks: seq<Token>, last: Token)
    requires LexAll(text, 0, false) == toks + [last] && (last == End || last.Fail?)
    requires FromLexer(toks) && Orderly(toks) && Accepted(toks, |toks|)
    ensures Stage1Ends(text, toks, last)
  {
    assert (toks + [last])[..|toks|] == toks && toks[..|toks|] == toks;
    var c := PrefixTracks(toks, |toks|, toks);
    FinishExact(toks, c);
    if AllLiterals(toks) { LiteralsAccepted(toks, |toks|); }
  }

  lemma {:induction false} LiteralsAccepted(toks: seq<Token>, k: int)
    requires AllLiterals(toks) && 0 <= k <= |toks|
    ensures Accepted(toks, k) && !Inside(toks[..k]) && Depth(toks[..k]) == 0
    ensures k > 0 ==> toks[..k][k - 1].Literal?
    decreases k
  {
    if k > 0 {
      LiteralsAccepted(toks, k - 1);
      assert toks[..k][..k - 1] == toks[..k - 1] && toks[k - 1].Literal?;
    }
  }

  /** Every text is spelt by some tokens, up to its end or an error. */
  lemma EveryText(text: string) returns (stops: seq<int>, toks: seq<Token>, last: Token)
    ensures SpeltOut(text, stops, toks) && EndsWith(text, stops, toks, last)
  {
    LastToken(text, 0, false);
    var all := LexAll(text, 0, false);
    toks, last := all[..|all| - 1], all[|all| - 1];
    assert toks + [last] == all;
    LexesExactly(text, toks, last);
    stops :| SpeltOut(text, stops, toks) && EndsWith(text, stops, toks, last);
  }

  // ----- groups with nothing in them -----

  /** The lists on the stack of groups that no closing parenthesis at hand takes off. */
  ghost function Surplus(c: Ctx): int
    requires Valid(c)
  {
    |c.parens| - 1 - if c.afterGroup then 1 else 0
  }

  function DepthStep(inside: bool, tok: Token): int {
    if inside then 0 else if tok == LParen then 1 else if tok == RParen then -1 else 0
  }

  /** The same groups, open or closed. */
  ghost predicate SameGroups(c: Ctx, c': Ctx) {
    |c'.parens| == |c.parens| && c'.afterGroup == c.afterGroup && c'.inClass == c.inClass
  }

  lemma EmitGroups(c: Ctx, code: seq<Inst>)
    requires Valid(c)
    ensures SameGroups(c, Emit(c, code))
  {
  }

  lemma FlushSurplus(c: Ctx)
    requires Valid(c)
    ensures Surplus(Flush(c)) == Surplus(c) && Flush(c).inClass == c.inClass
    ensures c.afterGroup && Buf(c) == [] ==> Flush(c) == c
  {
    EmitGroups(c, Buf(c));
  }

  lemma FlushLiteralsGroups(c: Ctx)
    requires Valid(c)
    ensures SameGroups(c, FlushLiterals(c))
  {
    EmitGroups(c, c.parens[0].code);
  }

  lemma ConsumeSurplus(c: Ctx)
    requires Valid(c)
    ensures Surplus(Consume(c)) == Surplus(c) && Consume(c).inClass == c.inClass
  {
    assert SameGroups(c, SetList(c, c.buf, []));
  }

  lemma OpSurplus(c: Ctx, tok: Token, c': Ctx)
    requires Valid(c) && IsOp(tok) && Op(c, tok) == Ok(c')
    ensures Surplus(c') == Surplus(c) && c'.inClass == c.inClass
  {
    var k := if Buf(c) == [] then 0 else c.operand.1;
    var code := Buf(c)[..k] + OpCode(tok, Buf(c)[k..]).value;
    EmitGroups(c, code);
    EmittedSurplus(c, Emit(c, code), c.chained || Target(c).dsize != 0);
  }

  lemma EmittedSurplus(c: Ctx, c1: Ctx, chained: bool)
    requires Valid(c) && Valid(c1) && SameGroups(c, c1)
    ensures Surplus(Consume(c1)) == Surplus(c) && Consume(c1).inClass == c.inClass
    ensures var c2 := SetTarget(c1, Alternate(Target(c1))).(chained := chained);
      Valid(c2) && Surplus(Consume(c2)) == Surplus(c) && Consume(c2).inClass == c.inClass
  {
    ConsumeSurplus(c1);
    ConsumeSurplus(SetTarget(c1, Alternate(Target(c1))).(chained := chained));
  }

  lemma PlaceSurplus(c: Ctx, tok: Token, c': Ctx)
    requires Valid(c) && Place(c, tok) == Ok(c') && !c.inClass
    ensures |c'.parens| == |c.parens| + (if tok == LParen then 1 else 0)
    ensures tok == RParen ==> c'.afterGroup
    ensures c'.inClass <==> tok == CharcOpen
  {
    FlushLiteralsGroups(c);
    var c1 := FlushLiterals(c);
    assert SameGroups(c1, SetTarget(c1, Attach(Target(c1))));
  }

  lemma CharcGroups(c: Ctx, tok: Token, c': Ctx)
    requires Valid(c) && Charc(c, tok) == Ok(c') && c.inClass
    ensures |c'.parens| == |c.parens| && (c'.inClass <==> tok != CharcClose)
  {
  }

  /** A closing parenthesis takes one list off at most, and none when the group is empty and no
      operator follows. */
  lemma SurplusStep(c: Ctx, tok: Token, c': Ctx)
    requires Valid(c) && Take(c, tok) == Ok(c')
    ensures Surplus(c') >= Surplus(c) + DepthStep(c.inClass, tok)
    ensures Hollow(c) && !Operator(tok) ==> Surplus(c') > Surplus(c) + DepthStep(c.inClass, tok)
    ensures c'.inClass <==> if c.inClass then tok != CharcClose else tok == CharcOpen
  {
    if c.inClass {
      CharcGroups(c, tok, if tok == RParen then c' else Charc(c, tok).value);
    } else if IsOp(tok) {
      OpSurplus(c, tok, Op(c, tok).value);
    } else {
      FlushSurplus(c);
      PlaceSurplus(Flush(c), tok, Place(Flush(c), tok).value);
    }
  }

  lemma TakeFirst(c: Ctx, tok: Token, rest: seq<Token>, b: seq<Token>, c': Ctx) returns (c1: Ctx)
    requires Valid(c) && b == [tok] + rest && TakeAll(c, b) == Ok(c')
    ensures Take(c, tok) == Ok(c1) && Valid(c1) && TakeAll(c1, rest) == Ok(c')
  {
    assert b[0] == tok && b[1..] == rest;
    c1 := Take(c, tok).value;
  }

  predicate InsideStep(inside: bool, tok: Token) {
    if inside then tok != CharcClose else tok == CharcOpen
  }

  /** The depth that the tokens to come add. */
  function DepthFrom(inside: bool, toks: seq<Token>): int
    decreases |toks|
  {
    if toks == [] then 0 else DepthStep(inside, toks[0]) + DepthFrom(InsideStep(inside, toks[0]), toks[1..])
  }

  lemma {:induction false} DepthSplit(a: seq<Token>, inside: bool, b: seq<Token>, w: seq<Token>)
    requires w == a + b && inside == Inside(a)
    ensures Depth(w) == Depth(a) + DepthFrom(inside, b)
    decreases |b|
  {
    if b == [] {
      assert w == a;
    } else {
      var a1 := a + [b[0]];
      LastOf(a, b[0], a1);
      assert w == a1 + b[1..];
      DepthSplit(a1, InsideStep(inside, b[0]), b[1..], w);
    }
  }

  lemma {:induction false} SurplusGrows(c: Ctx, b: seq<Token>, c': Ctx)
    requires Valid(c) && TakeAll(c, b) == Ok(c')
    ensures Valid(c') && Surplus(c') >= Surplus(c) + DepthFrom(c.inClass, b)
    decreases |b|
  {
    if b != [] {
      var tok, rest := b[0], b[1..];
      var c1 := TakeFirst(c, tok, rest, b, c');
      SurplusStep(c, tok, c1);
      SurplusGrows(c1, rest, c');
    }
  }

  lemma FinishSurplus(c: Ctx)
    requires Valid(c) && Finish(c).Ok?
    ensures Surplus(c) == 0
  {
  }

  /** The first place where a group with nothing in it is not followed by an operator. */
  lemma {:induction false} FirstDisorder(toks: seq<Token>, n: int) returns (k: int)
    requires 0 <= n <= |toks|
    ensures 0 <= k <= n && OrderlyTo(toks, k) && (k < n ==> !OrderlyAt(toks, k))
  {
    if n == 0 {
      k := 0;
    } else {
      k := FirstDisorder(toks, n - 1);
      if k == n - 1 && OrderlyAt(toks, k) { k := n; }
    }
  }

  lemma AfterDisorder(c: Ctx, tok: Token, rest: seq<Token>, b: seq<Token>, c': Ctx)
    requires Valid(c) && Hollow(c) && !Operator(tok) && b == [tok] + rest && TakeAll(c, b) == Ok(c')
    ensures Valid(c') && Surplus(c') > Surplus(c) + DepthFrom(false, b)
  {
    var c1 := TakeFirst(c, tok, rest, b, c');
    SurplusStep(c, tok, c1);
    SurplusGrows(c1, rest, c');
    assert b[0] == tok && b[1..] == rest;
  }

  lemma DisorderState(toks: seq<Token>, k: int, u: seq<Token>) returns (c: Ctx)
    requires FromLexer(toks) && 0 <= k < |toks| && OrderlyTo(toks, k) && !OrderlyAt(toks, k) && u == toks[..k]
    ensures TakeAll(INITIAL, u) == Ok(c) && Valid(c) && Hollow(c) && Surplus(c) == Depth(u)
    ensures !Inside(u) && !Operator(toks[k])
  {
    c := PrefixTracks(toks, k, u);
  }

  lemma DisorderEnds(c: Ctx, tok: Token, rest: seq<Token>, b: seq<Token>)
    requires Valid(c) && Hollow(c) && !Operator(tok) && b == [tok] + rest && Surplus(c) + DepthFrom(false, b) >= 0
    ensures TakeAll(c, b).Err? || Finish(TakeAll(c, b).value).Err?
  {
    if TakeAll(c, b).Ok? {
      var c' := TakeAll(c, b).value;
      AfterDisorder(c, tok, rest, b, c');
      if Finish(c').Ok? { FinishSurplus(c'); }
    }
  }

  lemma {:induction false} DisorderRefused(toks: seq<Token>, k: int, u: seq<Token>, tok: Token, b: seq<Token>)
    requires FromLexer(toks) && 0 <= k < |toks| && OrderlyTo(toks, k) && !OrderlyAt(toks, k)
    requires u == toks[..k] && tok == toks[k] && b == toks[k..] && Depth(toks) >= 0
    ensures TakeAll(INITIAL, toks).Err? || Finish(TakeAll(INITIAL, toks).value).Err?
  {
    var c := DisorderState(toks, k, u);
    assert toks == u + b;
    DepthSplit(u, false, b, toks);
    DisorderEnds(c, tok, toks[k + 1..], b);
    TakeThen(INITIAL, u, c, b);
  }

  lemma DisorderedText(text: string, stops: seq<int>, toks: seq<Token>, last: Token)
    requires SpeltOut(text, stops, toks) && EndsWith(text, stops, toks, last) && Depth(toks) >= 0 && !Orderly(toks)
    ensures Stage1(text).Err?
  {
    LexesExactly(text, toks, last);
    SpeltProper(text, stops, toks);
    assert (toks + [last])[..|toks|] == toks;
    var k := FirstDisorder(toks, |toks|);
    DisorderRefused(toks, k, toks[..k], toks[k], toks[k..]);
    if AllLiterals(toks) { LiteralsAccepted(toks, k); }
  }

  /** Unless parentheses are closed too often, a text compiles exactly if nothing in it is refused,
      nothing is left open and every group with nothing in it is followed by a bar. */
  lemma CompilesExactly(text: string, stops: seq<int>, toks: seq<Token>, last: Token)
    requires SpeltOut(text, stops, toks) && EndsWith(text, stops, toks, last) && Depth(toks) >= 0
    ensures Stage1(text).Ok? <==>
      && last == End && Accepted(toks, |toks|) && !Inside(toks) && Depth(toks) == 0
      && Orderly(toks) && !EndsHollow(toks)
  {
    if Orderly(toks) {
      RefusedExactly(text, stops, toks, last);
    } else {
      DisorderedText(text, stops, toks, last);
    }
  }

  /** Closed too often, such a group is what the second parenthesis closes: the text compiles. */
  lemma HollowCloses(a: char, text: string)
    requires Ordinary(a) && !Reserved(a) && text == ['(', ')', a, ')']
    ensures Stage1(text) == Ok(Code([Char(a), Match], false))
  {
    var toks := [LParen, RParen, Literal(a), RParen];
    HollowLexes(a, text, toks);
    assert (toks + [End])[..4] == toks && toks[0] == LParen;
    HollowTakes(a, toks);
    GroupFinishes(a);
  }

  lemma HollowLexes(a: char, text: string, toks: seq<Token>)
    requires Ordinary(a) && !Reserved(a) && text == ['(', ')', a, ')'] && toks == [LParen, RParen, Literal(a), RParen]
    ensures LexAll(text, 0, false) == toks + [End]
  {
    var stops := [0, 1, 2, 3, 4];
    NothingOpen(toks, 4);
    forall k | 0 <= k < 4 ensures SpeltAt(text, stops, toks, k) { NothingOpen(toks, k); }
    assert SpeltOut(text, stops, toks) && EndsWith(text, stops, toks, End);
    LexesExactly(text, toks, End);
  }

  lemma {:induction false} NothingOpen(toks: seq<Token>, k: int)
    requires 0 <= k <= |toks| && CharcOpen !in toks
    ensures !Inside(toks[..k])
    decreases k
  {
    if k > 0 {
      NothingOpen(toks, k - 1);
      assert toks[..k][..k - 1] == toks[..k - 1] && toks[k - 1] in toks;
    }
  }

  function GroupCtx(group: seq<Inst>, closed: bool, target: nat, buf: nat): Ctx {
    Ctx(EMPTY_STACK, [EMPTY_STACK, Stack(group, -1, 0)], target, buf, (buf, 0), closed, false, false, "", false)
  }

  lemma GroupOpens()
    ensures Take(INITIAL, LParen) == Ok(GroupCtx([], false, 1, 0))
  {
    var c1 := FlushLiterals(INITIAL);
    EmitNone(INITIAL);
    assert c1 == INITIAL && c1.parens + [EMPTY_STACK] == [EMPTY_STACK, EMPTY_STACK];
  }

  lemma GroupCloses(code: seq<Inst>, closed: bool, target: nat, buf: nat)
    requires target <= 1 && buf <= 1 && (buf == 1 ==> target == 0) && !closed
    ensures Take(GroupCtx(code, closed, target, buf), RParen) == Ok(GroupCtx(code, true, 0, 1))
  {
    var c := GroupCtx(code, closed, target, buf);
    EmitNone(c);
    assert FlushLiterals(c).parens == c.parens;
    assert SetTarget(c, Target(c)) == c;
  }

  lemma GroupTakes(a: char)
    ensures Take(GroupCtx([], true, 0, 1), Literal(a)) == Ok(GroupCtx([Char(a)], false, 0, 1))
  {
    var c := GroupCtx([], true, 0, 1);
    assert Buf(c) == [] && [] + [Char(a)] == [Char(a)];
    assert c.parens[1 := Stack([Char(a)], -1, 0)] == [EMPTY_STACK, Stack([Char(a)], -1, 0)];
  }

  lemma GroupFinishes(a: char)
    ensures Valid(GroupCtx([Char(a)], true, 0, 1))
    ensures Finish(GroupCtx([Char(a)], true, 0, 1)) == Ok(Code([Char(a), Match], false))
  {
    var c := GroupCtx([Char(a)], true, 0, 1);
    assert Pop(c).parens == [EMPTY_STACK] && [] + [Char(a)] == [Char(a)] && [Char(a)] + [] == [Char(a)];
    assert [Char(a)] + [Match] == [Char(a), Match];
  }

  lemma HollowTwo(t2: seq<Token>)
    ensures TakeAll(INITIAL, [LParen] + ([RParen] + t2)) == TakeAll(GroupCtx([], true, 0, 1), t2)
  {
    GroupOpens();
    GroupCloses([], false, 1, 0);
    TakeCons(INITIAL, LParen, GroupCtx([], false, 1, 0), [RParen] + t2);
    TakeCons(GroupCtx([], false, 1, 0), RParen, GroupCtx([], true, 0, 1), t2);
  }

  lemma HollowLast(a: char)
    ensures TakeAll(GroupCtx([], true, 0, 1), [Literal(a)] + [RParen]) == Ok(GroupCtx([Char(a)], true, 0, 1))
  {
    GroupTakes(a);
    GroupCloses([Char(a)], false, 0, 1);
    TakeCons(GroupCtx([], true, 0, 1), Literal(a), GroupCtx([Char(a)], false, 0, 1), [RParen]);
    TakeOne(GroupCtx([Char(a)], false, 0, 1), RParen);
  }

  lemma HollowTakes(a: char, toks: seq<Token>)
    requires toks == [LParen, RParen, Literal(a), RParen]
    ensures TakeAll(INITIAL, toks) == Ok(GroupCtx([Char(a)], true, 0, 1))
  {
    var t2 := [Literal(a)] + [RParen];
    HollowTwo(t2);
    HollowLast(a);
    assert toks == [LParen] + ([RParen] + t2);
  }
}
